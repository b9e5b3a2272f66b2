/** `load_storage` of pypiprivate/storage.py: the configured backend name
    selects which `from_config` reads the configuration. */
module StorageLoader {
  import opened Wrappers
  import opened Storage
  import opened Azure

  /** The backend `load_storage` builds, as the settings its constructor
      receives. */
  datatype Backend =
    | LocalFileSystem(basePath: string)
    | AwsS3(s3: S3Settings)
    | AzureBlob(azure: AzureSettings)

  /** `load_storage`: `local-filesystem`, `aws-s3` and `azure` go to their
      backend's `from_config`, whose errors pass through; any other name is
      `Unsupported storage`. */
  function LoadStorage(storage: string, storageConfig: map<string, string>, env: map<string, string>)
    : (r: Result<Backend, ConfigError>)
    ensures storage !in {"local-filesystem", "aws-s3", "azure"} ==> r == Err(UnsupportedStorage(storage))
    ensures storage == "local-filesystem" ==>
      match LocalFromConfig(storageConfig)
      case Ok(basePath) => r == Ok(LocalFileSystem(basePath))
      case Err(e) => r == Err(e)
    ensures storage == "aws-s3" ==>
      match S3FromConfig(storageConfig, env)
      case Ok(s) => r == Ok(AwsS3(s))
      case Err(e) => r == Err(e)
    ensures storage == "azure" ==>
      match AzureFromConfig(storageConfig, env)
      case Ok(s) => r == Ok(AzureBlob(s))
      case Err(e) => r == Err(e)
    ensures r.Ok? ==> (r.value.LocalFileSystem? <==> storage == "local-filesystem")
    ensures r.Ok? ==> (r.value.AwsS3? <==> storage == "aws-s3")
    ensures r.Ok? ==> (r.value.AzureBlob? <==> storage == "azure")
  {
    if storage == "local-filesystem" then
      match LocalFromConfig(storageConfig)
      case Ok(basePath) => Ok(LocalFileSystem(basePath))
      case Err(e) => Err(e)
    else if storage == "aws-s3" then
      match S3FromConfig(storageConfig, env)
      case Ok(s) => Ok(AwsS3(s))
      case Err(e) => Err(e)
    else if storage == "azure" then
      match AzureFromConfig(storageConfig, env)
      case Ok(s) => Ok(AzureBlob(s))
      case Err(e) => Err(e)
    else
      Err(UnsupportedStorage(storage))
  }
}
