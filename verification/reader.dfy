/**
 * The incoming half of the single-use port dispatcher: selecting and
 * loading port readers, validating untrusted bundles and accepting them,
 * each through the class registered for a version string.
 */
module Reader {
  import opened Wrappers
  import opened PortRecords
  import opened Dispatch

  /** The reader classes the dispatcher knows. */
  datatype ReaderClass = PortReader_1_0_0

  /** The latest reader version; no reader operation defaults to it. */
  const LATEST_VERSION: string := "1.0.0"

  /** The cases of the reader `switch`. */
  const VERSIONS: VersionTable<ReaderClass> := [("1.0.0", PortReader_1_0_0)]

  /** A live reader: an instance of a class wrapped around a reader record. */
  datatype PortReader = PortReader(impl: ReaderClass, data: ReadPortData)

  /**
   * The static operations of one reader class, whose bodies are not part of
   * this model. `validateBundle` returns the typed bundle or the message of
   * the error it throws; `accept` returns the record it stored, if any, and
   * the storage after its writes.
   */
  datatype ReaderOps = ReaderOps(
    validateBundle: RawBundle -> Result<PortBundle, string>,
    accept: (PortBundle, Permissions, string, Storage) -> (Option<ReadPortData>, Storage))

  /** The error the reader selector throws for a failed selection. */
  function SelectError(version: Option<string>): PortError {
    if !Specified(version) then VersionNotSpecified(ReaderSide)
    else UnsupportedVersion(ReaderSide, version.value)
  }

  /**
   * Selects the class for a version: only "1.0.0" has one; a missing or
   * empty version is "not specified", any other string "unsupported".
   */
  function Select(version: Option<string>): (r: Result<ReaderClass, PortError>)
    ensures r.Ok? <==> version == Some("1.0.0")
    ensures version.None? || version == Some("") ==> r == Err(VersionNotSpecified(ReaderSide))
    ensures version.Some? && version.value != "" && version.value != "1.0.0" ==>
              r == Err(UnsupportedVersion(ReaderSide, version.value))
  {
    assert FirstCase(VERSIONS, "1.0.0", 0);
    Dispatch.Select(ReaderSide, VERSIONS, version)
  }

  /**
   * Wraps a reader record in an instance of the class its own version
   * selects; the record is kept as it is.
   */
  function Load(data: ReadPortData): (r: Result<PortReader, PortError>)
    ensures r.Ok? <==> data.version == LATEST_VERSION
    ensures r.Ok? ==> r.value.data == data
    ensures r.Err? ==> r.error == SelectError(Some(data.version))
  {
    match Select(Some(data.version))
    case Ok(c) => Ok(PortReader(c, data))
    case Err(e) => Err(e)
  }

  /**
   * The gate on untrusted input: an absent bundle, or one whose version is
   * missing or empty, is "Invalid bundle data" before any class is chosen;
   * otherwise the selected class's own validation decides.
   */
  function ValidateBundle(impls: ReaderClass -> ReaderOps, bundle: Option<RawBundle>)
    : (r: Result<PortBundle, PortError>)
    ensures bundle.None? || !Specified(bundle.value.version) ==> r == Err(InvalidBundleData)
    ensures bundle.Some? && Specified(bundle.value.version) && bundle.value.version.value != LATEST_VERSION ==>
              r == Err(UnsupportedVersion(ReaderSide, bundle.value.version.value))
    ensures bundle.Some? && bundle.value.version == Some(LATEST_VERSION) ==>
              match impls(PortReader_1_0_0).validateBundle(bundle.value)
              case Ok(b) => r == Ok(b)
              case Err(reason) => r == Err(BundleRejected(reason))
    ensures r != Err(VersionNotSpecified(ReaderSide))
  {
    if bundle.None? || !Specified(bundle.value.version) then Err(InvalidBundleData)
    else match Select(bundle.value.version)
      case Err(e) => Err(e)
      case Ok(c) =>
        match impls(c).validateBundle(bundle.value)
        case Ok(b) => Ok(b)
        case Err(reason) => Err(BundleRejected(reason))
  }

  /**
   * Accepts a bundle through the class its version selects, passing the
   * chosen permissions and folder on as they are, then loads the record the
   * class returned; "NoPortWasAccepted" when it returned none.
   */
  function Accept(
    impls: ReaderClass -> ReaderOps,
    bundle: PortBundle,
    permissions: Permissions,
    folderId: string,
    store: Storage)
    : (r: (Result<PortReader, PortError>, Storage))
    ensures bundle.version != LATEST_VERSION ==> r == (Err(SelectError(Some(bundle.version))), store)
    ensures bundle.version == LATEST_VERSION ==>
              var (accepted, store') := impls(PortReader_1_0_0).accept(bundle, permissions, folderId, store);
              && r.1 == store'
              && (accepted.None? ==> r.0 == Err(NoPortWasAccepted))
              && (accepted.Some? && accepted.value.version == LATEST_VERSION ==>
                    r.0 == Ok(PortReader(PortReader_1_0_0, accepted.value)))
              && (accepted.Some? && accepted.value.version != LATEST_VERSION ==>
                    r.0 == Err(SelectError(Some(accepted.value.version))))
  {
    match Select(Some(bundle.version))
    case Err(e) => (Err(e), store)
    case Ok(c) =>
      var (accepted, store') := impls(c).accept(bundle, permissions, folderId, store);
      if accepted.None? then (Err(NoPortWasAccepted), store')
      else (Load(accepted.value), store')
  }
}
