/** pypiprivate/storage.py: the path arithmetic shared by the object-store
    backends, the key stripping of an S3 listing, configuration resolution,
    and the S3 backend as a bucket of keys. The SDK is replaced by the
    state it manages: the bucket is a map from key to stored object, a
    listing is computed from it, and `head_object` is key membership. */
module Storage {
  import opened Wrappers
  import opened Text

  /** The exception `PathNotFound` (a `StorageException`). */
  datatype StorageError = PathNotFound(path: string)

  /** A `KeyError` on a missing configuration or environment entry, and the
      `ValueError` of `load_storage` for an unknown backend name. */
  datatype ConfigError = MissingKey(key: string) | UnsupportedStorage(name: string)

  /** `'/'.join(parts)`: the `join_path` of the object-store backends. */
  function JoinPath(parts: seq<string>): (r: string)
    ensures |parts| == 1 ==> r == parts[0]
    ensures |parts| == 2 ==> r == parts[0] + "/" + parts[1]
  {
    if parts == [] then ""
    else if |parts| == 1 then parts[0]
    else parts[0] + "/" + JoinPath(parts[1..])
  }

  /** `if self.prefix:` — None and the empty string both mean "no prefix". */
  predicate HasPrefix(prefix: Option<string>) {
    prefix.Some? && prefix.value != ""
  }

  /** `prefixed_path`: the key under which a storage path lives. The path
      `.` is the root: the prefix alone, or `''` without a prefix. */
  function PrefixedPath(prefix: Option<string>, path: string): (r: string)
    ensures path == "." ==> r == (if HasPrefix(prefix) then prefix.value else "")
    ensures path != "." && HasPrefix(prefix) ==> r == prefix.value + "/" + path
    ensures path != "." && !HasPrefix(prefix) ==> r == path
  {
    var parts := (if HasPrefix(prefix) then [prefix.value] else [])
      + (if path != "." then [path] else []);
    assert |parts| == 2 ==>
      parts[0] == prefix.value && parts[1..] == [path] && JoinPath(parts) == prefix.value + "/" + JoinPath([path]);
    JoinPath(parts)
  }

  /** Two storage paths other than `.` share a key only if they are equal. */
  lemma PrefixedPathInjective(prefix: Option<string>, p: string, q: string)
    requires p != "." && q != "."
    requires PrefixedPath(prefix, p) == PrefixedPath(prefix, q)
    ensures p == q
  {
    if HasPrefix(prefix) {
      var n := |prefix.value| + 1;
      assert p == PrefixedPath(prefix, p)[n..];
      assert q == PrefixedPath(prefix, q)[n..];
    }
  }

  /** The `Prefix` of a listing request: the path, followed by `/` unless
      it is empty or already ends in one. */
  function ListPrefix(path: string): (r: string)
    ensures r == "" || EndsWith(r, "/")
    ensures IsPrefix(path, r)
    ensures r != path <==> (path != "" && !EndsWith(path, "/"))
    ensures r != path ==> r == path + "/"
  {
    if path != "" && !EndsWith(path, "/") then path + "/" else path
  }

  /** The `if c` filter over the search results of a paginated listing:
      entries that are missing (`None`) are dropped. */
  function Present(xs: seq<Option<string>>): (r: seq<string>)
    ensures |r| <= |xs|
    ensures forall x :: x in r <==> Some(x) in xs
  {
    if xs == [] then []
    else (if xs[0].Some? then [xs[0].value] else []) + Present(xs[1..])
  }

  /** `[k[len(prefix):] for k in keys]`. */
  function StripAll(listPrefix: string, keys: seq<string>): (r: seq<string>)
    ensures |r| == |keys|
    ensures forall i :: 0 <= i < |keys| ==> r[i] == DropPrefix(keys[i], |listPrefix|)
  {
    seq(|keys|, i requires 0 <= i < |keys| => DropPrefix(keys[i], |listPrefix|))
  }

  /** `[f for f in files if f != '']`. */
  function NonEmpty(xs: seq<string>): (r: seq<string>)
    ensures IsSubsequence(r, xs)
    ensures forall x :: x in r <==> x in xs && x != ""
  {
    if xs == [] then []
    else
      var rest := NonEmpty(xs[1..]);
      assert rest != [] ==> rest[0] in rest;
      if xs[0] == "" then rest else [xs[0]] + rest
  }

  /** The result of S3 `listdir` given the two parts of the listing
      response: `PathNotFound` when both are empty, otherwise the stripped
      file keys without empty names, then the stripped common prefixes. */
  function S3ListdirEntries(listPrefix: string, contents: seq<Option<string>>, commonPrefixes: seq<Option<string>>)
    : (r: Result<seq<string>, StorageError>)
    ensures r.Err? <==> (forall x :: Some(x) !in contents) && (forall x :: Some(x) !in commonPrefixes)
    ensures r.Err? ==> r.error == PathNotFound(listPrefix)
    ensures r.Ok? ==> r.value == NonEmpty(StripAll(listPrefix, Present(contents)))
                                 + StripAll(listPrefix, Present(commonPrefixes))
  {
    var fileKeys := Present(contents);
    var dirKeys := Present(commonPrefixes);
    if |fileKeys| == 0 && |dirKeys| == 0 then
      Err(PathNotFound(listPrefix))
    else
      assert fileKeys != [] ==> fileKeys[0] in fileKeys;
      assert dirKeys != [] ==> dirKeys[0] in dirKeys;
      Ok(NonEmpty(StripAll(listPrefix, fileKeys)) + StripAll(listPrefix, dirKeys))
  }

  /** When the service returns only keys under the list-prefix (as S3
      does), stripping is undone by putting the prefix back: every entry
      names a listed key, every file key other than the prefix itself gives
      an entry, and so does every common prefix. */
  lemma S3ListdirRoundTrip(listPrefix: string, contents: seq<Option<string>>, commonPrefixes: seq<Option<string>>)
    requires forall k :: Some(k) in contents ==> IsPrefix(listPrefix, k)
    requires forall k :: Some(k) in commonPrefixes ==> IsPrefix(listPrefix, k)
    requires S3ListdirEntries(listPrefix, contents, commonPrefixes).Ok?
    ensures var entries := S3ListdirEntries(listPrefix, contents, commonPrefixes).value;
      && (forall e :: e in entries ==> Some(listPrefix + e) in contents || Some(listPrefix + e) in commonPrefixes)
      && (forall k :: Some(k) in contents && k != listPrefix ==> DropPrefix(k, |listPrefix|) in entries)
      && (forall k :: Some(k) in commonPrefixes ==> DropPrefix(k, |listPrefix|) in entries)
  {
    var entries := S3ListdirEntries(listPrefix, contents, commonPrefixes).value;
    var files := StripAll(listPrefix, Present(contents));
    var dirs := StripAll(listPrefix, Present(commonPrefixes));
    assert entries == NonEmpty(files) + dirs;
    forall e | e in entries
      ensures Some(listPrefix + e) in contents || Some(listPrefix + e) in commonPrefixes
    {
      if e in NonEmpty(files) {
        var i :| 0 <= i < |files| && files[i] == e;
        var k := Present(contents)[i];
        DropPrefixOf(listPrefix, k);
      } else {
        var i :| 0 <= i < |dirs| && dirs[i] == e;
        var k := Present(commonPrefixes)[i];
        DropPrefixOf(listPrefix, k);
      }
    }
    forall k | Some(k) in contents && k != listPrefix
      ensures DropPrefix(k, |listPrefix|) in entries
    {
      var i :| 0 <= i < |Present(contents)| && Present(contents)[i] == k;
      assert files[i] == DropPrefix(k, |listPrefix|);
      DropPrefixOf(listPrefix, k);
    }
    forall k | Some(k) in commonPrefixes
      ensures DropPrefix(k, |listPrefix|) in entries
    {
      var i :| 0 <= i < |Present(commonPrefixes)| && Present(commonPrefixes)[i] == k;
      assert dirs[i] == DropPrefix(k, |listPrefix|);
    }
  }

  /** The first path segment of `s`, with its `/` when there is one: what
      a delimited listing reports for a key whose remainder is `s`. */
  function UpToSlash(s: string): (r: string)
    ensures IsPrefix(r, s)
    ensures '/' !in s ==> r == s
    ensures '/' in s ==> r != [] && r[|r| - 1] == '/' && '/' !in r[..|r| - 1]
  {
    if s == [] then []
    else if s[0] == '/' then "/"
    else [s[0]] + UpToSlash(s[1..])
  }

  /** The entries a delimited listing of `listPrefix` reports for a set of
      keys: one per key strictly under the prefix, cut after its first `/`
      below it. */
  function ListingOf(keys: set<string>, listPrefix: string): (r: set<string>)
    ensures forall e :: e in r ==> e != "" && '/' !in e[..|e| - 1]
    ensures forall e :: e in r ==> exists k :: k in keys && IsPrefix(listPrefix + e, k)
  {
    set k | k in keys && IsPrefix(listPrefix, k) && |k| > |listPrefix| :: UpToSlash(k[|listPrefix|..])
  }

  /** The `Contents` part of a `list_objects` response with delimiter `/`:
      the keys under the prefix with no further `/`. */
  function ContentsOf(keys: set<string>, listPrefix: string): (r: set<string>)
    ensures r <= keys
    ensures forall k :: k in r ==> IsPrefix(listPrefix, k) && k[|listPrefix|..] == UpToSlash(k[|listPrefix|..])
  {
    set k | k in keys && IsPrefix(listPrefix, k) && '/' !in k[|listPrefix|..]
  }

  /** The `CommonPrefixes` part of that response. */
  function CommonPrefixesOf(keys: set<string>, listPrefix: string): (r: set<string>)
    ensures forall p :: p in r ==>
      && IsPrefix(listPrefix, p) && |p| > |listPrefix| && p[|p| - 1] == '/'
      && '/' !in p[|listPrefix|..|p| - 1]
      && exists k :: k in keys && IsPrefix(p, k)
  {
    var r := set k | k in keys && IsPrefix(listPrefix, k) && '/' in k[|listPrefix|..]
      :: listPrefix + UpToSlash(k[|listPrefix|..]);
    forall p | p in r
      ensures IsPrefix(listPrefix, p) && |p| > |listPrefix| && p[|p| - 1] == '/'
      ensures '/' !in p[|listPrefix|..|p| - 1]
      ensures exists k :: k in keys && IsPrefix(p, k)
    {
      var k :| k in keys && IsPrefix(listPrefix, k) && '/' in k[|listPrefix|..]
        && p == listPrefix + UpToSlash(k[|listPrefix|..]);
      CommonPrefixOfKey(listPrefix, k);
    }
    r
  }

  lemma CommonPrefixOfKey(listPrefix: string, k: string)
    requires IsPrefix(listPrefix, k) && '/' in k[|listPrefix|..]
    ensures var p := listPrefix + UpToSlash(k[|listPrefix|..]);
      && IsPrefix(listPrefix, p) && |p| > |listPrefix| && p[|p| - 1] == '/'
      && '/' !in p[|listPrefix|..|p| - 1] && IsPrefix(p, k)
  {
    var rest := k[|listPrefix|..];
    var u := UpToSlash(rest);
    var p := listPrefix + u;
    assert p[|listPrefix|..|p| - 1] == u[..|u| - 1];
    assert k == listPrefix + rest;
    assert p == k[..|p|];
  }

  function Wrap(xs: seq<string>): (r: seq<Option<string>>)
    ensures forall x :: Some(x) in r <==> x in xs
  {
    if xs == [] then [] else [Some(xs[0])] + Wrap(xs[1..])
  }

  /** What a delimited `list_objects` call reports for `keys`: the
      `Contents` and the `CommonPrefixes` parts hold exactly the keys of
      `ContentsOf` and of `CommonPrefixesOf`, in some order. */
  ghost predicate IsResponseFor(keys: set<string>, listPrefix: string, contents: seq<string>, prefixes: seq<string>) {
    && (forall x :: x in contents <==> x in ContentsOf(keys, listPrefix))
    && (forall x :: x in prefixes <==> x in CommonPrefixesOf(keys, listPrefix))
  }

  /** Turning the response of the service into `listdir` entries gives
      exactly `ListingOf`, and `PathNotFound` exactly when no key lies
      under the prefix. */
  lemma S3ListdirOfKeys(keys: set<string>, listPrefix: string, contents: seq<string>, prefixes: seq<string>)
    requires IsResponseFor(keys, listPrefix, contents, prefixes)
    ensures var r := S3ListdirEntries(listPrefix, Wrap(contents), Wrap(prefixes));
      && (r.Err? <==> forall k :: k in keys ==> !IsPrefix(listPrefix, k))
      && (r.Ok? ==> forall e :: e in r.value <==> e in ListingOf(keys, listPrefix))
  {
    S3ListdirNotFound(keys, listPrefix, contents, prefixes);
    var r := S3ListdirEntries(listPrefix, Wrap(contents), Wrap(prefixes));
    if r.Ok? {
      S3ListdirEntriesListed(keys, listPrefix, contents, prefixes);
      S3ListdirListedEntries(keys, listPrefix, contents, prefixes);
    }
  }

  /** `PathNotFound` exactly when no key lies under the prefix. */
  lemma S3ListdirNotFound(keys: set<string>, listPrefix: string, contents: seq<string>, prefixes: seq<string>)
    requires IsResponseFor(keys, listPrefix, contents, prefixes)
    ensures var r := S3ListdirEntries(listPrefix, Wrap(contents), Wrap(prefixes));
      r.Err? <==> forall k :: k in keys ==> !IsPrefix(listPrefix, k)
  {
    var n := |listPrefix|;
    forall k | k in keys && IsPrefix(listPrefix, k)
      ensures k in contents || listPrefix + UpToSlash(k[n..]) in prefixes
    {
      if '/' !in k[n..] {
        assert k in ContentsOf(keys, listPrefix);
      } else {
        assert listPrefix + UpToSlash(k[n..]) in CommonPrefixesOf(keys, listPrefix);
      }
    }
  }

  /** Every entry is in `ListingOf`. */
  lemma S3ListdirEntriesListed(keys: set<string>, listPrefix: string, contents: seq<string>, prefixes: seq<string>)
    requires IsResponseFor(keys, listPrefix, contents, prefixes)
    requires S3ListdirEntries(listPrefix, Wrap(contents), Wrap(prefixes)).Ok?
    ensures var r := S3ListdirEntries(listPrefix, Wrap(contents), Wrap(prefixes));
      forall e :: e in r.value ==> e in ListingOf(keys, listPrefix)
  {
    var r := S3ListdirEntries(listPrefix, Wrap(contents), Wrap(prefixes));
    var n := |listPrefix|;
    S3ListdirRoundTrip(listPrefix, Wrap(contents), Wrap(prefixes));
    forall e | e in r.value
      ensures e in ListingOf(keys, listPrefix)
    {
      if Some(listPrefix + e) in Wrap(contents) {
        EntryNotEmpty(listPrefix, Wrap(contents), Wrap(prefixes), e);
        ContentListed(keys, listPrefix, e);
      } else {
        PrefixListed(keys, listPrefix, e);
      }
    }
  }

  lemma ContentListed(keys: set<string>, listPrefix: string, e: string)
    requires listPrefix + e in ContentsOf(keys, listPrefix) && e != ""
    ensures e in ListingOf(keys, listPrefix)
  {
    var k := listPrefix + e;
    assert k[|listPrefix|..] == e;
  }

  lemma PrefixListed(keys: set<string>, listPrefix: string, e: string)
    requires listPrefix + e in CommonPrefixesOf(keys, listPrefix)
    ensures e in ListingOf(keys, listPrefix)
  {
    var n := |listPrefix|;
    var p := listPrefix + e;
    var k :| k in keys && IsPrefix(listPrefix, k) && '/' in k[n..] && p == listPrefix + UpToSlash(k[n..]);
    assert e == UpToSlash(k[n..]);
  }

  /** Every member of `ListingOf` is an entry. */
  lemma S3ListdirListedEntries(keys: set<string>, listPrefix: string, contents: seq<string>, prefixes: seq<string>)
    requires IsResponseFor(keys, listPrefix, contents, prefixes)
    requires S3ListdirEntries(listPrefix, Wrap(contents), Wrap(prefixes)).Ok?
    ensures var r := S3ListdirEntries(listPrefix, Wrap(contents), Wrap(prefixes));
      forall e :: e in ListingOf(keys, listPrefix) ==> e in r.value
  {
    var n := |listPrefix|;
    S3ListdirRoundTrip(listPrefix, Wrap(contents), Wrap(prefixes));
    forall e | e in ListingOf(keys, listPrefix)
      ensures e in S3ListdirEntries(listPrefix, Wrap(contents), Wrap(prefixes)).value
    {
      var k :| k in keys && IsPrefix(listPrefix, k) && |k| > n && e == UpToSlash(k[n..]);
      if '/' in k[n..] {
        var p := listPrefix + UpToSlash(k[n..]);
        assert p in CommonPrefixesOf(keys, listPrefix);
        assert DropPrefix(p, n) == e;
      } else {
        assert k in ContentsOf(keys, listPrefix);
        assert DropPrefix(k, n) == e;
      }
    }
  }

  /** An entry of a listing is the empty string only if it is a stripped
      common prefix: the empty names left by stripping the `Contents` keys
      are dropped. */
  lemma EntryNotEmpty(listPrefix: string, contents: seq<Option<string>>, prefixes: seq<Option<string>>, e: string)
    requires e in NonEmpty(StripAll(listPrefix, Present(contents))) || e in StripAll(listPrefix, Present(prefixes))
    ensures e != "" || e in StripAll(listPrefix, Present(prefixes))
  {
  }

  // ---------------------------------------------------------------------
  // Configuration

  /** Credentials passed explicitly to the boto3 session. */
  datatype Credentials = Credentials(accessKey: string, secretKey: string, sessionToken: Option<string>)

  /** What `AWSS3Storage.from_config` passes to the constructor. */
  datatype S3Settings = S3Settings(
    bucket: string,
    acl: string,
    creds: Option<Credentials>,
    prefix: Option<string>,
    endpoint: Option<string>,
    region: Option<string>)

  const AccessKeyVar: string := "PP_S3_ACCESS_KEY"
  const SecretKeyVar: string := "PP_S3_SECRET_KEY"
  const SessionTokenVar: string := "PP_S3_SESSION_TOKEN"
  const DefaultAcl: string := "private"

  /** `AWSS3Storage.from_config`: the bucket is required; the ACL defaults
      to `private`; explicit credentials are used only when both the access
      and the secret key are in the environment, with the session token
      when it is there too; the other entries are optional. */
  function S3FromConfig(storageConfig: map<string, string>, env: map<string, string>)
    : (r: Result<S3Settings, ConfigError>)
    ensures r.Err? <==> "bucket" !in storageConfig
    ensures r.Err? ==> r.error == MissingKey("bucket")
    ensures r.Ok? ==> r.value.bucket == storageConfig["bucket"]
    ensures r.Ok? ==> r.value.acl == (if "acl" in storageConfig then storageConfig["acl"] else "private")
    ensures r.Ok? ==> (r.value.creds.Some? <==> AccessKeyVar in env && SecretKeyVar in env)
    ensures r.Ok? && r.value.creds.Some? ==>
      && r.value.creds.value.accessKey == env[AccessKeyVar]
      && r.value.creds.value.secretKey == env[SecretKeyVar]
      && (r.value.creds.value.sessionToken.None? <==> SessionTokenVar !in env)
      && (SessionTokenVar in env ==> r.value.creds.value.sessionToken == Some(env[SessionTokenVar]))
    ensures r.Ok? ==> (r.value.prefix.Some? <==> "prefix" in storageConfig)
    ensures r.Ok? ==> (r.value.endpoint.Some? <==> "endpoint" in storageConfig)
    ensures r.Ok? ==> (r.value.region.Some? <==> "region" in storageConfig)
    ensures r.Ok? && "prefix" in storageConfig ==> r.value.prefix == Some(storageConfig["prefix"])
    ensures r.Ok? && "endpoint" in storageConfig ==> r.value.endpoint == Some(storageConfig["endpoint"])
    ensures r.Ok? && "region" in storageConfig ==> r.value.region == Some(storageConfig["region"])
  {
    if "bucket" !in storageConfig then Err(MissingKey("bucket"))
    else
      var creds :=
        if AccessKeyVar in env && SecretKeyVar in env
        then Some(Credentials(env[AccessKeyVar], env[SecretKeyVar], Get(env, SessionTokenVar)))
        else None;
      Ok(S3Settings(
        storageConfig["bucket"],
        Get(storageConfig, "acl").GetOr(DefaultAcl),
        creds,
        Get(storageConfig, "prefix"),
        Get(storageConfig, "endpoint"),
        Get(storageConfig, "region")))
  }

  /** The settings of a configuration naming an endpoint and a region:
      with the three variables in the environment the credentials are
      explicit, with none of them boto3 finds its own. */
  lemma S3FromConfigWithEndpoint()
    ensures var sc := map["bucket" := "mybucket", "prefix" := "simple",
                          "endpoint" := "https://s3.us-west-2.amazonaws.com", "region" := "us-west-2"];
      var env := map[AccessKeyVar := "access", SecretKeyVar := "secret", SessionTokenVar := "session"];
      && S3FromConfig(sc, env)
         == Ok(S3Settings("mybucket", "private", Some(Credentials("access", "secret", Some("session"))),
                          Some("simple"), Some("https://s3.us-west-2.amazonaws.com"), Some("us-west-2")))
      && S3FromConfig(sc, map[])
         == Ok(S3Settings("mybucket", "private", None,
                          Some("simple"), Some("https://s3.us-west-2.amazonaws.com"), Some("us-west-2")))
  {
  }

  /** `LocalFileSystemStorage.from_config`: only the base path, required. */
  function LocalFromConfig(storageConfig: map<string, string>): (r: Result<string, ConfigError>)
    ensures r.Ok? <==> "base_path" in storageConfig
    ensures r.Ok? ==> r.value == storageConfig["base_path"]
    ensures r.Err? ==> r.error == MissingKey("base_path")
  {
    if "base_path" in storageConfig then Ok(storageConfig["base_path"]) else Err(MissingKey("base_path"))
  }

  /** The keyword arguments of `session.resource('s3', **kwargs)`, built
      one entry at a time: each option is passed only when it is set. */
  method ResourceKwargs(endpoint: Option<string>, region: Option<string>) returns (kwargs: map<string, string>)
    ensures kwargs.Keys <= {"endpoint_url", "region_name"}
    ensures "endpoint_url" in kwargs <==> endpoint.Some?
    ensures "region_name" in kwargs <==> region.Some?
    ensures endpoint.Some? ==> kwargs["endpoint_url"] == endpoint.value
    ensures region.Some? ==> kwargs["region_name"] == region.value
  {
    kwargs := map[];
    if endpoint.Some? {
      kwargs := kwargs["endpoint_url" := endpoint.value];
    }
    if region.Some? {
      kwargs := kwargs["region_name" := region.value];
    }
  }

  /** The boto3 session: explicit credentials, or boto3's own lookup. */
  datatype Session = DefaultSession | ExplicitSession(accessKey: string, secretKey: string, sessionToken: Option<string>)

  /** What `put_contents` and `put_file` store: a text (of type `T`, left
      open here) or the bytes of a local file (named by its path), with the
      object's ACL. */
  datatype Body<T> = TextBody(text: T) | FileBody(src: string)
  datatype S3Object<T> = S3Object(body: Body<T>, acl: string)

  /** `AWSS3Storage`: the settings fixed by `__init__`, and the bucket. */
  class AWSS3Storage<T> {
    const bucketName: string
    const acl: string
    const prefix: Option<string>
    const endpoint: Option<string>
    const region: Option<string>
    const session: Session
    const resourceKwargs: map<string, string>
    /** The bucket's objects, by key. */
    var objects: map<string, S3Object<T>>
    /** Every `put_object` call so far, in order: key and object. */
    ghost var puts: seq<(string, S3Object<T>)>

    /** `__init__`; `existing` is what the bucket holds when it is opened. */
    constructor (bucket: string, acl: string, creds: Option<Credentials>, prefix: Option<string>,
                 endpoint: Option<string>, region: Option<string>, existing: map<string, S3Object<T>>)
      ensures bucketName == bucket && this.acl == acl && this.prefix == prefix
      ensures this.endpoint == endpoint && this.region == region
      ensures session == (if creds.Some?
                          then ExplicitSession(creds.value.accessKey, creds.value.secretKey, creds.value.sessionToken)
                          else DefaultSession)
      ensures "endpoint_url" in resourceKwargs <==> endpoint.Some?
      ensures "region_name" in resourceKwargs <==> region.Some?
      ensures resourceKwargs.Keys <= {"endpoint_url", "region_name"}
      ensures endpoint.Some? ==> resourceKwargs["endpoint_url"] == endpoint.value
      ensures region.Some? ==> resourceKwargs["region_name"] == region.value
      ensures objects == existing && puts == []
    {
      if creds.Some? {
        session := ExplicitSession(creds.value.accessKey, creds.value.secretKey, creds.value.sessionToken);
      } else {
        session := DefaultSession;
      }
      this.endpoint := endpoint;
      this.region := region;
      var kwargs := ResourceKwargs(endpoint, region);
      resourceKwargs := kwargs;
      bucketName := bucket;
      this.prefix := prefix;
      this.acl := acl;
      objects := existing;
      puts := [];
    }

    /** `from_config` followed by `__init__`. */
    static method FromConfig(storageConfig: map<string, string>, env: map<string, string>,
                             existing: map<string, S3Object<T>>)
      returns (r: Result<AWSS3Storage<T>, ConfigError>)
      ensures r.Err? <==> S3FromConfig(storageConfig, env).Err?
      ensures r.Err? ==> r.error == S3FromConfig(storageConfig, env).error
      ensures r.Ok? ==> fresh(r.value) && r.value.objects == existing && r.value.puts == []
      ensures r.Ok? ==> var s := S3FromConfig(storageConfig, env).value;
        && r.value.bucketName == s.bucket && r.value.acl == s.acl && r.value.prefix == s.prefix
        && r.value.endpoint == s.endpoint && r.value.region == s.region
      ensures r.Ok? ==>
        r.value.session == (if AccessKeyVar in env && SecretKeyVar in env
                            then ExplicitSession(env[AccessKeyVar], env[SecretKeyVar], Get(env, SessionTokenVar))
                            else DefaultSession)
      ensures r.Ok? ==>
        && ("endpoint_url" in r.value.resourceKwargs <==> "endpoint" in storageConfig)
        && ("region_name" in r.value.resourceKwargs <==> "region" in storageConfig)
        && ("endpoint" in storageConfig ==> r.value.resourceKwargs["endpoint_url"] == storageConfig["endpoint"])
        && ("region" in storageConfig ==> r.value.resourceKwargs["region_name"] == storageConfig["region"])
    {
      var settings := S3FromConfig(storageConfig, env);
      if settings.Err? {
        return Err(settings.error);
      }
      var s := settings.value;
      var storage := new AWSS3Storage<T>(s.bucket, s.acl, s.creds, s.prefix, s.endpoint, s.region, existing);
      return Ok(storage);
    }

    /** `path_exists`: `head_object` succeeds, i.e. the exact key is there. */
    predicate PathExists(path: string): (b: bool)
      reads this
      ensures path != "." && HasPrefix(prefix) ==> (b <==> prefix.value + "/" + path in objects)
      ensures path != "." && !HasPrefix(prefix) ==> (b <==> path in objects)
      ensures path == "." ==> (b <==> (if HasPrefix(prefix) then prefix.value else "") in objects)
    {
      PrefixedPath(prefix, path) in objects
    }

    /** `listdir`: asks the service for the keys under the list-prefix
        (delimited by `/`, in an order the model leaves open) and strips the
        prefix from them. */
    method Listdir(path: string) returns (r: Result<seq<string>, StorageError>)
      ensures var lp := ListPrefix(PrefixedPath(prefix, path));
        && (r.Err? <==> forall k :: k in objects ==> !IsPrefix(lp, k))
        && (r.Err? ==> r.error == PathNotFound(lp))
        && (r.Ok? ==> forall e :: e in r.value <==> e in ListingOf(objects.Keys, lp))
    {
      var lp := ListPrefix(PrefixedPath(prefix, path));
      var contents := Enumerate(ContentsOf(objects.Keys, lp));
      var prefixes := Enumerate(CommonPrefixesOf(objects.Keys, lp));
      S3ListdirOfKeys(objects.Keys, lp, contents, prefixes);
      r := S3ListdirEntries(lp, Wrap(contents), Wrap(prefixes));
    }

    /** `put_contents`: writes (or overwrites) one object with the text. */
    method PutContents(contents: T, dest: string)
      modifies this
      ensures objects == old(objects)[PrefixedPath(prefix, dest) := S3Object(TextBody(contents), acl)]
      ensures puts == old(puts) + [(PrefixedPath(prefix, dest), S3Object(TextBody(contents), acl))]
    {
      var key := PrefixedPath(prefix, dest);
      objects := objects[key := S3Object(TextBody(contents), acl)];
      puts := puts + [(key, S3Object(TextBody(contents), acl))];
    }

    /** `put_file`: uploads the local file `src` to one object. */
    method PutFile(src: string, dest: string)
      modifies this
      ensures objects == old(objects)[PrefixedPath(prefix, dest) := S3Object(FileBody(src), acl)]
      ensures puts == old(puts) + [(PrefixedPath(prefix, dest), S3Object(FileBody(src), acl))]
    {
      var key := PrefixedPath(prefix, dest);
      objects := objects[key := S3Object(FileBody(src), acl)];
      puts := puts + [(key, S3Object(FileBody(src), acl))];
    }
  }
}
