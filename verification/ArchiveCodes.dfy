// The closed set of codes archive/1 attributes a refusal to, and one more for an
// error of the source itself, which is passed on without any.
module ArchiveCodes {
  datatype Code =
    | FormatUnrecognized
    | VersionUnsupported
    | SignatureInvalid
    | DecryptFailed
    | Truncated
    | ManifestInvalid
    | EpochTooNew
    | BaseArchiveUnavailable
    | AssetUnavailable
    | PackYankedBlocked
    | DevChannelRefused
    | SourceFailed
}
