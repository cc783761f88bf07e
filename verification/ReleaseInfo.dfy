/** What a registry tells about the releases of a package. */
module ReleaseInfo {
  import opened Versions
  import opened Digests

  datatype VersionInfo = VersionInfo(version: Version, yanked: bool)

  datatype Release = Release(version: Version, digest: ContentDigest)
}
