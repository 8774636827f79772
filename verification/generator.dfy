/**
 * The outgoing half of the single-use port dispatcher: selecting, loading,
 * reloading and creating port generators, and fetching new ports, each
 * through the class registered for a version string.
 */
module Generator {
  import opened Wrappers
  import opened PortRecords
  import opened Dispatch

  /** The generator classes the dispatcher knows. */
  datatype GeneratorClass = PortGenerator_1_0_0

  /** The version used when a caller does not pin one. */
  const LATEST_VERSION: string := "1.0.0"

  /** The cases of the generator `switch`. */
  const VERSIONS: VersionTable<GeneratorClass> := [("1.0.0", PortGenerator_1_0_0)]

  /** A live generator: an instance of a class wrapped around a port record. */
  datatype PortGenerator = PortGenerator(impl: GeneratorClass, data: PortData)

  /**
   * The static operations of one generator class, whose bodies are not part
   * of this model. `create` returns the record it produced, if any, and the
   * storage after its writes; `fetchNewPorts` returns the storage after it.
   */
  datatype GeneratorOps = GeneratorOps(
    create: (string, string, Permissions, Expiry, Storage) -> (Option<PortData>, Storage),
    fetchNewPorts: Storage -> Storage)

  /** The error the generator selector throws for a failed selection. */
  function SelectError(version: Option<string>): PortError {
    if !Specified(version) then VersionNotSpecified(GeneratorSide)
    else UnsupportedVersion(GeneratorSide, version.value)
  }

  /**
   * Selects the class for a version: only "1.0.0" has one; a missing or
   * empty version is "not specified", any other string "unsupported".
   */
  function Select(version: Option<string>): (r: Result<GeneratorClass, PortError>)
    ensures r.Ok? <==> version == Some("1.0.0")
    ensures version.None? || version == Some("") ==> r == Err(VersionNotSpecified(GeneratorSide))
    ensures version.Some? && version.value != "" && version.value != "1.0.0" ==>
              r == Err(UnsupportedVersion(GeneratorSide, version.value))
  {
    assert FirstCase(VERSIONS, "1.0.0", 0);
    Dispatch.Select(GeneratorSide, VERSIONS, version)
  }

  /**
   * Wraps a record in an instance of the class its own version selects; the
   * record is kept as it is and nothing else is consulted.
   */
  function Load(data: PortData): (r: Result<PortGenerator, PortError>)
    ensures r.Ok? <==> data.version == LATEST_VERSION
    ensures r.Ok? ==> r.value.data == data
    ensures r.Err? ==> r.error == SelectError(Some(data.version))
  {
    match Select(Some(data.version))
    case Ok(c) => Ok(PortGenerator(c, data))
    case Err(e) => Err(e)
  }

  /**
   * Reloads the generator of a stored port: "NoUsedPortFound" when storage
   * has no record under `portId`, otherwise the record loaded as it is.
   */
  function FromPortId(portId: string, store: Storage): (r: Result<PortGenerator, PortError>)
    ensures portId !in store.myPorts <==> r == Err(NoUsedPortFound)
    ensures r.Ok? <==> portId in store.myPorts && store.myPorts[portId].version == LATEST_VERSION
    ensures r.Ok? ==> r.value.data == store.myPorts[portId]
    ensures portId in store.myPorts && r.Err? ==>
              r.error == SelectError(Some(store.myPorts[portId].version))
  {
    if portId !in store.myPorts then Err(NoUsedPortFound)
    else Load(store.myPorts[portId])
  }

  /**
   * Runs the selected class's fetch of new ports; an omitted version means
   * the latest one. A failed selection leaves storage as it was.
   */
  function FetchNewPorts(impls: GeneratorClass -> GeneratorOps, version: Option<string>, store: Storage)
    : (r: (Result<(), PortError>, Storage))
    ensures r.0.Ok? <==> version.None? || version == Some(LATEST_VERSION)
    ensures r.0.Ok? ==> r.1 == impls(PortGenerator_1_0_0).fetchNewPorts(store)
    ensures r.0.Err? ==> r == (Err(SelectError(version)), store)
  {
    match Select(Some(version.GetOr(LATEST_VERSION)))
    case Ok(c) => (Ok(()), impls(c).fetchNewPorts(store))
    case Err(e) => (Err(e), store)
  }

  /**
   * Creates a port through the selected class (the latest version and the
   * default expiry when omitted), then loads the record the class returned;
   * "NoPortWasCreated" when it returned none.
   */
  function Create(
    impls: GeneratorClass -> GeneratorOps,
    contactName: string,
    folderId: string,
    permissions: Permissions,
    expiry: Option<Expiry>,
    version: Option<string>,
    store: Storage)
    : (r: (Result<PortGenerator, PortError>, Storage))
    ensures version.Some? && version.value != LATEST_VERSION ==>
              r == (Err(SelectError(version)), store)
    ensures version.None? || version == Some(LATEST_VERSION) ==>
              var (created, store') :=
                impls(PortGenerator_1_0_0).create(contactName, folderId, permissions, expiry.GetOr(DEFAULT_EXPIRY), store);
              && r.1 == store'
              && (created.None? ==> r.0 == Err(NoPortWasCreated))
              && (created.Some? && created.value.version == LATEST_VERSION ==>
                    r.0 == Ok(PortGenerator(PortGenerator_1_0_0, created.value)))
              && (created.Some? && created.value.version != LATEST_VERSION ==>
                    r.0 == Err(SelectError(Some(created.value.version))))
  {
    match Select(Some(version.GetOr(LATEST_VERSION)))
    case Err(e) => (Err(e), store)
    case Ok(c) =>
      var (created, store') := impls(c).create(contactName, folderId, permissions, expiry.GetOr(DEFAULT_EXPIRY), store);
      if created.None? then (Err(NoPortWasCreated), store')
      else (Load(created.value), store')
  }
}
