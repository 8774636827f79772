/**
 * The records the single-use port core passes around: generator-side port
 * records, reader-side records, bundles received from outside, the storage
 * the version classes read and write, and the errors the core throws.
 */
module PortRecords {
  import opened Wrappers

  /** The permission set chosen for a contact; opaque to the port core. */
  type Permissions(==, !new)

  /** Fields of a bundle or record that only a version class interprets. */
  type Payload(==, !new)

  /**
   * An expiry choice, identified by its position in the fixed, ordered list
   * of expiry options; the list itself belongs to the time utilities.
   */
  datatype Expiry = ExpiryOption(index: nat)

  /** The expiry used by `create` when the caller gives none: the fifth option. */
  const DEFAULT_EXPIRY: Expiry := ExpiryOption(4)

  /** A generator-side port record; `version` names the class that owns it. */
  datatype PortData = PortData(
    id: string,
    version: string,
    contactName: string,
    folderId: string,
    permissions: Permissions,
    expiry: Expiry)

  /** A reader-side record of a claimed incoming port. */
  datatype ReadPortData = ReadPortData(
    version: string,
    folderId: string,
    permissions: Permissions,
    details: Payload)

  /**
   * Untrusted bundle data as received from a scan or a link. `version` is
   * absent when the payload carries no version field.
   */
  datatype RawBundle = RawBundle(version: Option<string>, fields: Payload)

  /** A bundle that a version class has validated. */
  datatype PortBundle = PortBundle(version: string, fields: Payload)

  /**
   * Local storage: generator-side records by port id, reader-side records by
   * a key of the reader class's choosing.
   */
  datatype Storage = Storage(
    myPorts: map<string, PortData>,
    readPorts: map<string, ReadPortData>)

  /** Which half of the dispatcher raised a version error. */
  datatype Side = GeneratorSide | ReaderSide

  /** The errors thrown by the port core. */
  datatype PortError =
    | VersionNotSpecified(side: Side)
    | UnsupportedVersion(side: Side, version: string)
    | NoUsedPortFound
    | NoPortWasCreated
    | NoPortWasAccepted
    | InvalidBundleData
      /** An error thrown by a version class's own bundle validation. */
    | BundleRejected(reason: string)

  /** True of the two errors a version selector throws. */
  predicate IsVersionError(e: PortError) {
    e.VersionNotSpecified? || e.UnsupportedVersion?
  }
}
