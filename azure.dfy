/** pypiprivate/azure.py: the Azure Blob Storage backend. Paths map to
    blob names exactly as in the S3 backend, but a listing is recursive (no
    delimiter), it never fails, and `path_exists` asks whether any blob
    name merely starts with the path. The two service clients are created
    on first use and cached. */
module Azure {
  import opened Wrappers
  import opened Text
  import opened Storage

  const ConnStrVar: string := "PP_AZURE_CONN_STR"

  /** What `AzureBlobStorage.from_config` passes to the constructor. */
  datatype AzureSettings = AzureSettings(connectionString: string, container: string, prefix: Option<string>)

  /** `AzureBlobStorage.from_config`: the container entry is looked up
      first, then the connection string in the environment; both are
      required, the prefix is optional. */
  function AzureFromConfig(storageConfig: map<string, string>, env: map<string, string>)
    : (r: Result<AzureSettings, ConfigError>)
    ensures r.Ok? <==> "container" in storageConfig && ConnStrVar in env
    ensures "container" !in storageConfig ==> r == Err(MissingKey("container"))
    ensures "container" in storageConfig && ConnStrVar !in env ==> r == Err(MissingKey(ConnStrVar))
    ensures r.Ok? ==>
      && r.value.container == storageConfig["container"]
      && r.value.connectionString == env[ConnStrVar]
      && (r.value.prefix.Some? <==> "prefix" in storageConfig)
      && ("prefix" in storageConfig ==> r.value.prefix.value == storageConfig["prefix"])
  {
    if "container" !in storageConfig then Err(MissingKey("container"))
    else if ConnStrVar !in env then Err(MissingKey(ConnStrVar))
    else Ok(AzureSettings(env[ConnStrVar], storageConfig["container"], Get(storageConfig, "prefix")))
  }

  // ---------------------------------------------------------------------
  // os.path.dirname

  /** `p.rfind('/') + 1`: the length of the part up to and including the
      last `/`, or 0. */
  function SlashEnd(p: string): (r: nat)
    ensures r <= |p|
    ensures r == 0 || p[r - 1] == '/'
    ensures forall i :: r <= i < |p| ==> p[i] != '/'
  {
    if p == [] then 0
    else if p[|p| - 1] == '/' then |p|
    else SlashEnd(p[..|p| - 1])
  }

  /** `s.rstrip('/')`. */
  function RStripSlashes(s: string): (r: string)
    ensures IsPrefix(r, s)
    ensures r == [] || r[|r| - 1] != '/'
    ensures forall i :: |r| <= i < |s| ==> s[i] == '/'
  {
    if s != [] && s[|s| - 1] == '/' then RStripSlashes(s[..|s| - 1]) else s
  }

  predicate AllSlashes(s: string) {
    forall i :: 0 <= i < |s| ==> s[i] == '/'
  }

  /** `posixpath.dirname`: the text before the last `/`, with trailing
      slashes removed unless it consists of slashes only. */
  function Dirname(p: string): (r: string)
    ensures IsPrefix(r, p)
    ensures (forall i :: 0 <= i < |p| ==> p[i] != '/') ==> r == ""
  {
    var head := p[..SlashEnd(p)];
    if head != "" && !AllSlashes(head) then RStripSlashes(head) else head
  }

  /** Splitting off the last segment of a path undoes joining it. */
  lemma DirnameOfJoin(dir: string, name: string)
    requires dir != "" && dir[|dir| - 1] != '/'
    requires forall i :: 0 <= i < |name| ==> name[i] != '/'
    ensures Dirname(dir + "/" + name) == dir
  {
    var p := dir + "/" + name;
    assert SlashEnd(p) == |dir| + 1 by {
      SlashEndAfter(dir + "/", name);
    }
    var head := p[..|dir| + 1];
    assert head == dir + "/";
    assert !AllSlashes(head) by {
      assert head[|dir| - 1] != '/';
    }
    assert RStripSlashes(head) == dir by {
      assert head[..|head| - 1] == dir;
    }
  }

  lemma {:induction false} SlashEndAfter(base: string, name: string)
    requires base != [] && base[|base| - 1] == '/'
    requires forall i :: 0 <= i < |name| ==> name[i] != '/'
    ensures SlashEnd(base + name) == |base|
    decreases |name|
  {
    if name == [] {
      assert base + name == base;
    } else {
      var p := base + name;
      assert p[..|p| - 1] == base + name[..|name| - 1];
      SlashEndAfter(base, name[..|name| - 1]);
    }
  }

  // ---------------------------------------------------------------------
  // Listings and existence

  /** The names `list_blobs(name_starts_with=lp)` reports, with `lp`
      stripped: every blob under the prefix, however deep. Stripping is
      undone by putting the prefix back: a name is listed exactly when the
      prefix followed by it is a blob. */
  function BlobFiles(keys: set<string>, listPrefix: string): (r: set<string>)
    ensures forall e :: e in r <==> listPrefix + e in keys
  {
    var r := set k | k in keys && IsPrefix(listPrefix, k) :: k[|listPrefix|..];
    assert forall e :: e in r <==> listPrefix + e in keys by {
      forall e
        ensures e in r <==> listPrefix + e in keys
      {
        if listPrefix + e in keys {
          assert (listPrefix + e)[|listPrefix|..] == e;
        }
        if e in r {
          var k :| k in keys && IsPrefix(listPrefix, k) && e == k[|listPrefix|..];
          assert k == listPrefix + e;
        }
      }
    }
    r
  }

  /** `{os.path.dirname(f) for f in files}`: the directories are exactly
      the directory names of the listed names ... */
  function BlobDirs(files: set<string>): (r: set<string>)
    ensures forall f :: f in files ==> Dirname(f) in r
    ensures forall d :: d in r ==> exists f :: f in files && d == Dirname(f)
  {
    set f | f in files :: Dirname(f)
  }

  /** ... and nothing that does not begin some listed name. */
  lemma BlobDirsBeginNames(files: set<string>, d: string)
    requires d in BlobDirs(files)
    ensures exists f :: f in files && IsPrefix(d, f)
  {
    var f :| f in files && d == Dirname(f);
    assert IsPrefix(d, f);
  }

  lemma DirsOfListed(files: seq<string>, fileSet: set<string>)
    requires forall f :: f in files <==> f in fileSet
    ensures (set f | f in files :: Dirname(f)) == BlobDirs(fileSet)
  {
    forall d | d in BlobDirs(fileSet)
      ensures d in (set f | f in files :: Dirname(f))
    {
      var f :| f in fileSet && d == Dirname(f);
      assert f in files;
    }
  }

  /** A blob directly under the listed prefix makes the empty string one of
      the listed directories. */
  lemma TopLevelBlobListsEmptyDir(keys: set<string>, listPrefix: string, name: string)
    requires listPrefix + name in keys
    requires forall i :: 0 <= i < |name| ==> name[i] != '/'
    ensures "" in BlobDirs(BlobFiles(keys, listPrefix))
  {
    assert name in BlobFiles(keys, listPrefix);
  }

  /** `path_exists` as written: some blob name starts with the key. That
      is the key itself, or a longer name beginning with it. */
  predicate BlobPathExists(keys: set<string>, key: string): (b: bool)
    ensures key in keys ==> b
    ensures b <==> key in keys || exists k :: k in keys && |k| > |key| && k[..|key|] == key
  {
    var b := exists k :: k in keys && IsPrefix(key, k);
    assert b <==> key in keys || exists k :: k in keys && |k| > |key| && k[..|key|] == key by {
      assert key in keys ==> IsPrefix(key, key);
      if b {
        var k :| k in keys && IsPrefix(key, k);
        assert |k| == |key| ==> k == k[..|key|];
      }
    }
    b
  }

  /** A proper prefix of a stored name exists too: an artifact is
      reported as present when only a longer name beginning with it (a
      signature next to it, say) is stored. */
  lemma LongerNameExists()
    ensures BlobPathExists({"pkg/pkg-1.0.tar.gz.asc"}, "pkg/pkg-1.0.tar.gz")
    ensures "pkg/pkg-1.0.tar.gz" !in {"pkg/pkg-1.0.tar.gz.asc"}
  {
    var k := "pkg/pkg-1.0.tar.gz.asc";
    assert k[..|"pkg/pkg-1.0.tar.gz"|] == "pkg/pkg-1.0.tar.gz";
  }

  // ---------------------------------------------------------------------
  // The storage class

  /** `BlobServiceClient.from_connection_string(...)`. */
  class BlobServiceClient {
    const connectionString: string

    constructor (connectionString: string)
      ensures this.connectionString == connectionString
    {
      this.connectionString := connectionString;
    }
  }

  /** `blob_service_client.get_container_client(name)`. */
  class ContainerClient {
    const service: BlobServiceClient
    const container: string

    constructor (service: BlobServiceClient, container: string)
      ensures this.service == service && this.container == container
    {
      this.service := service;
      this.container := container;
    }
  }

  /** What `upload_blob` stores: a text (of type `T`) or the bytes of a
      local file, named by its path. */
  datatype Blob<T> = TextBlob(text: T) | FileBlob(src: string)

  /** `AzureBlobStorage` with the `AzureBlobClientMixin` state. */
  class AzureBlobStorage<T> {
    const connectionString: string
    const container: string
    const prefix: Option<string>
    /** `_blob_service_client` and `_container_client`, `None` until first use. */
    var blobServiceClient: BlobServiceClient?
    var containerClient: ContainerClient?
    /** The container's blobs, by name. */
    var blobs: map<string, Blob<T>>

    /** A cached client was made for this storage's connection string and
        container, and the container client from the cached service client. */
    predicate Valid()
      reads this, blobServiceClient, containerClient
    {
      && (blobServiceClient != null ==> blobServiceClient.connectionString == connectionString)
      && (containerClient != null ==>
            && containerClient.container == container && containerClient.service == blobServiceClient
            && blobServiceClient != null)
    }

    /** `__init__`; `existing` is what the container holds. */
    constructor (connectionString: string, container: string, prefix: Option<string>, existing: map<string, Blob<T>>)
      ensures this.connectionString == connectionString && this.container == container && this.prefix == prefix
      ensures blobServiceClient == null && containerClient == null
      ensures blobs == existing
      ensures Valid()
    {
      this.connectionString := connectionString;
      this.container := container;
      this.prefix := prefix;
      blobServiceClient := null;
      containerClient := null;
      blobs := existing;
    }

    /** `from_config` followed by `__init__`. */
    static method FromConfig(storageConfig: map<string, string>, env: map<string, string>, existing: map<string, Blob<T>>)
      returns (r: Result<AzureBlobStorage<T>, ConfigError>)
      ensures r.Err? <==> AzureFromConfig(storageConfig, env).Err?
      ensures r.Err? ==> r.error == AzureFromConfig(storageConfig, env).error
      ensures r.Ok? ==> var s := AzureFromConfig(storageConfig, env).value;
        && fresh(r.value) && r.value.Valid()
        && r.value.connectionString == s.connectionString && r.value.container == s.container
        && r.value.prefix == s.prefix && r.value.blobs == existing
    {
      var settings := AzureFromConfig(storageConfig, env);
      if settings.Err? {
        return Err(settings.error);
      }
      var s := settings.value;
      var storage := new AzureBlobStorage<T>(s.connectionString, s.container, s.prefix, existing);
      return Ok(storage);
    }

    /** The `blob_service_client` property: made on first use, the same
        object on every later use. */
    method GetBlobServiceClient() returns (c: BlobServiceClient)
      requires Valid()
      modifies this
      ensures old(blobServiceClient) != null ==> c == old(blobServiceClient)
      ensures old(blobServiceClient) == null ==> fresh(c)
      ensures c.connectionString == connectionString
      ensures blobServiceClient == c
      ensures containerClient == old(containerClient) && blobs == old(blobs)
      ensures Valid()
    {
      if blobServiceClient != null {
        return blobServiceClient;
      }
      c := new BlobServiceClient(connectionString);
      blobServiceClient := c;
    }

    /** The `container_client` property: made on first use from the
        service client, the same object on every later use. */
    method GetContainerClient() returns (c: ContainerClient)
      requires Valid()
      modifies this
      ensures old(containerClient) != null ==> c == old(containerClient) && blobServiceClient == old(blobServiceClient)
      ensures old(containerClient) == null ==> fresh(c) && c.service == blobServiceClient
      ensures old(containerClient) == null && old(blobServiceClient) != null ==> blobServiceClient == old(blobServiceClient)
      ensures c.container == container && c.service.connectionString == connectionString
      ensures containerClient == c && blobs == old(blobs)
      ensures Valid()
    {
      if containerClient != null {
        return containerClient;
      }
      var service := GetBlobServiceClient();
      c := new ContainerClient(service, container);
      containerClient := c;
    }

    /** `listdir`: the stripped names of all blobs under the path, in the
        service's order, then each of their directory names once, in the
        arbitrary order of a Python set. Never `PathNotFound`. */
    method Listdir(path: string) returns (entries: seq<string>)
      requires Valid()
      modifies this
      ensures blobServiceClient != null && containerClient != null
      ensures old(blobServiceClient) != null ==> blobServiceClient == old(blobServiceClient)
      ensures old(containerClient) != null ==> containerClient == old(containerClient)
      ensures Valid() && blobs == old(blobs)
      ensures var files := BlobFiles(blobs.Keys, ListPrefix(PrefixedPath(prefix, path)));
        var dirs := BlobDirs(files);
        && |entries| == |files| + |dirs|
        && (forall e :: e in entries[..|files|] <==> e in files)
        && (forall e :: e in entries[|files|..] <==> e in dirs)
        && Distinct(entries[..|files|]) && Distinct(entries[|files|..])
    {
      var listPrefix := ListPrefix(PrefixedPath(prefix, path));
      var _ := GetContainerClient();
      var fileSet := BlobFiles(blobs.Keys, listPrefix);
      var files := Enumerate(fileSet);
      var dirSet := set f | f in files :: Dirname(f);
      DirsOfListed(files, fileSet);
      var dirs := Enumerate(dirSet);
      entries := files + dirs;
      assert entries[..|files|] == files && entries[|files|..] == dirs;
    }

    /** `path_exists`: whether any blob name starts with the key. */
    method PathExists(path: string) returns (exists_: bool)
      requires Valid()
      modifies this
      ensures blobServiceClient != null && containerClient != null
      ensures old(blobServiceClient) != null ==> blobServiceClient == old(blobServiceClient)
      ensures old(containerClient) != null ==> containerClient == old(containerClient)
      ensures Valid() && blobs == old(blobs)
      ensures exists_ <==> BlobPathExists(blobs.Keys, PrefixedPath(prefix, path))
    {
      var key := PrefixedPath(prefix, path);
      var _ := GetContainerClient();
      exists_ := exists k | k in blobs.Keys :: IsPrefix(key, k);
    }

    /** `put_contents`: the blob at the key is replaced. */
    method PutContents(contents: T, dest: string)
      requires Valid()
      modifies this
      ensures blobServiceClient != null && containerClient != null
      ensures old(blobServiceClient) != null ==> blobServiceClient == old(blobServiceClient)
      ensures old(containerClient) != null ==> containerClient == old(containerClient)
      ensures Valid()
      ensures blobs == old(blobs)[PrefixedPath(prefix, dest) := TextBlob(contents)]
    {
      var key := PrefixedPath(prefix, dest);
      var _ := GetContainerClient();
      blobs := blobs[key := TextBlob(contents)];
    }

    /** `put_file`: the blob at the key is replaced by the file's bytes. */
    method PutFile(src: string, dest: string)
      requires Valid()
      modifies this
      ensures blobServiceClient != null && containerClient != null
      ensures old(blobServiceClient) != null ==> blobServiceClient == old(blobServiceClient)
      ensures old(containerClient) != null ==> containerClient == old(containerClient)
      ensures Valid()
      ensures blobs == old(blobs)[PrefixedPath(prefix, dest) := FileBlob(src)]
    {
      var key := PrefixedPath(prefix, dest);
      var _ := GetContainerClient();
      blobs := blobs[key := FileBlob(src)];
    }
  }
}
