/**
 * Sequences of calls into the port dispatcher, and what holds across them:
 * how the two halves agree, how the defaults behave, that a created port
 * reloads, and that stored ports keep resolving to their class as long as
 * the version classes only store records of a registered version.
 */
module Lifecycle {
  import opened Wrappers
  import opened PortRecords
  import opened Dispatch
  import Generator
  import Reader

  /** The operations of every registered generator and reader class. */
  datatype Classes = Classes(
    generators: Generator.GeneratorClass -> Generator.GeneratorOps,
    readers: Reader.ReaderClass -> Reader.ReaderOps)

  /** One call into the dispatcher, with its arguments as the caller gives them. */
  datatype Call =
    | CreatePort(contactName: string, folderId: string, permissions: Permissions,
                 expiry: Option<Expiry>, version: Option<string>)
    | FetchNewPorts(fetchVersion: Option<string>)
    | ReloadPort(portId: string)
    | ValidateBundle(raw: Option<RawBundle>)
    | AcceptBundle(bundle: PortBundle, chosenPermissions: Permissions, chosenFolder: string)

  /** What one call returned or threw. */
  datatype Outcome =
    | Generated(generated: Result<Generator.PortGenerator, PortError>)
    | Fetched(fetched: Result<(), PortError>)
    | Validated(validated: Result<PortBundle, PortError>)
    | Accepted(accepted: Result<Reader.PortReader, PortError>)

  /** Performs one call against the storage, giving its outcome and the storage after it. */
  function Step(classes: Classes, call: Call, store: Storage): (Outcome, Storage) {
    match call
    case CreatePort(name, folder, perms, expiry, version) =>
      var (r, store') := Generator.Create(classes.generators, name, folder, perms, expiry, version, store);
      (Generated(r), store')
    case FetchNewPorts(version) =>
      var (r, store') := Generator.FetchNewPorts(classes.generators, version, store);
      (Fetched(r), store')
    case ReloadPort(id) => (Generated(Generator.FromPortId(id, store)), store)
    case ValidateBundle(raw) => (Validated(Reader.ValidateBundle(classes.readers, raw)), store)
    case AcceptBundle(bundle, perms, folder) =>
      var (r, store') := Reader.Accept(classes.readers, bundle, perms, folder, store);
      (Accepted(r), store')
  }

  /** Performs the calls in order, giving one outcome per call and the final storage. */
  function Run(classes: Classes, calls: seq<Call>, store: Storage): (r: (seq<Outcome>, Storage))
    ensures |r.0| == |calls|
    ensures 0 < |calls| ==> r.0[0] == Step(classes, calls[0], store).0
    decreases |calls|
  {
    if |calls| == 0 then ([], store)
    else
      var (o, store') := Step(classes, calls[0], store);
      var (os, final) := Run(classes, calls[1..], store');
      ([o] + os, final)
  }

  /** Every stored generator record carries a version that has a class. */
  predicate AllLoadable(store: Storage) {
    forall id :: id in store.myPorts ==> Generator.Load(store.myPorts[id]).Ok?
  }

  /**
   * The version classes only ever leave storage in which every generator
   * record has a registered version, whatever they are called with.
   */
  ghost predicate ClassesKeepLoadable(classes: Classes) {
    && (forall c, name, folder, perms, expiry, store ::
          AllLoadable(store) ==>
            AllLoadable(classes.generators(c).create(name, folder, perms, expiry, store).1))
    && (forall c, store ::
          AllLoadable(store) ==> AllLoadable(classes.generators(c).fetchNewPorts(store)))
    && (forall c, bundle, perms, folder, store ::
          AllLoadable(store) ==> AllLoadable(classes.readers(c).accept(bundle, perms, folder, store).1))
  }

  /** A reload either gives a generator or reports that no port is stored under the id. */
  predicate ReloadSucceedsOrNotFound(o: Outcome) {
    o.Generated? && (o.generated.Ok? || o.generated == Err(NoUsedPortFound))
  }

  /** The two selectors accept the same versions and fail with the same kind of error. */
  lemma SelectorsAgree(version: Option<string>)
    ensures Generator.Select(version).Ok? <==> Reader.Select(version).Ok?
    ensures Generator.Select(version).Ok? <==> Specified(version) && Registered(Generator.VERSIONS, version.value)
    ensures Generator.Select(version) == Err(VersionNotSpecified(GeneratorSide))
            <==> Reader.Select(version) == Err(VersionNotSpecified(ReaderSide))
  {
  }

  /** Both halves' latest versions resolve to a class. */
  lemma LatestVersionsSelectable()
    ensures Generator.Select(Some(Generator.LATEST_VERSION)).Ok?
    ensures Reader.Select(Some(Reader.LATEST_VERSION)).Ok?
  {
  }

  /** Two records with the same version tag load alike, whatever their other fields. */
  lemma LoadDependsOnlyOnVersion(a: PortData, b: PortData)
    requires a.version == b.version
    ensures Generator.Load(a).Ok? <==> Generator.Load(b).Ok?
    ensures Generator.Load(a).Ok? ==> Generator.Load(a).value.impl == Generator.Load(b).value.impl
    ensures Generator.Load(a).Err? ==> Generator.Load(a) == Generator.Load(b)
  {
  }

  /**
   * A create without a version never fails while selecting its class: a
   * version error can only come from the record the class returned.
   */
  lemma DefaultVersionCreate(
    impls: Generator.GeneratorClass -> Generator.GeneratorOps,
    name: string, folder: string, perms: Permissions, expiry: Option<Expiry>, store: Storage)
    ensures var (r, _) := Generator.Create(impls, name, folder, perms, expiry, None, store);
            var (created, _) := impls(Generator.PortGenerator_1_0_0).create(name, folder, perms, expiry.GetOr(DEFAULT_EXPIRY), store);
            r.Err? && IsVersionError(r.error) ==>
              created.Some? && created.value.version != Generator.LATEST_VERSION
  {
    var (r, _) := Generator.Create(impls, name, folder, perms, expiry, None, store);
    var (created, _) := impls(Generator.PortGenerator_1_0_0).create(name, folder, perms, expiry.GetOr(DEFAULT_EXPIRY), store);
    if created.None? {
      assert r == Err(NoPortWasCreated);
    }
  }

  /**
   * A created port reloads by its id as the same generator, provided the
   * class stored the record it returned under that record's id; its
   * contact name, folder and expiry are then those the caller passed,
   * provided the class kept them.
   */
  lemma CreateThenReload(
    impls: Generator.GeneratorClass -> Generator.GeneratorOps,
    name: string, folder: string, perms: Permissions, expiry: Option<Expiry>,
    version: Option<string>, store: Storage)
    requires var (r, store') := Generator.Create(impls, name, folder, perms, expiry, version, store);
             r.Ok? ==> r.value.data.id in store'.myPorts && store'.myPorts[r.value.data.id] == r.value.data
    ensures var (r, store') := Generator.Create(impls, name, folder, perms, expiry, version, store);
            r.Ok? ==> Generator.FromPortId(r.value.data.id, store') == r
    ensures var (r, store') := Generator.Create(impls, name, folder, perms, expiry, version, store);
            var (created, _) := impls(Generator.PortGenerator_1_0_0).create(name, folder, perms, expiry.GetOr(DEFAULT_EXPIRY), store);
            r.Ok? && created.Some? && created.value.contactName == name && created.value.folderId == folder
              && created.value.expiry == expiry.GetOr(DEFAULT_EXPIRY) ==>
              var g := Generator.FromPortId(r.value.data.id, store');
              && g.Ok?
              && g.value.data.contactName == name
              && g.value.data.folderId == folder
              && g.value.data.expiry == expiry.GetOr(DEFAULT_EXPIRY)
  {
  }

  /**
   * A bundle that passed validation, and whose class kept its version tag,
   * is accepted through the class that validated it: `accept` selects the
   * "1.0.0" reader and hands it the chosen permissions and folder.
   */
  lemma ValidatedBundleAccepts(
    impls: Reader.ReaderClass -> Reader.ReaderOps,
    raw: Option<RawBundle>, perms: Permissions, folder: string, store: Storage)
    requires var v := Reader.ValidateBundle(impls, raw);
             v.Ok? ==> raw.Some? && raw.value.version == Some(v.value.version)
    ensures var v := Reader.ValidateBundle(impls, raw);
            v.Ok? ==>
              && v.value.version == Reader.LATEST_VERSION
              && Reader.Accept(impls, v.value, perms, folder, store).1
                 == impls(Reader.PortReader_1_0_0).accept(v.value, perms, folder, store).1
  {
  }

  /** Two reader records with the same version tag load alike, whatever their other fields. */
  lemma ReaderLoadDependsOnlyOnVersion(a: ReadPortData, b: ReadPortData)
    requires a.version == b.version
    ensures Reader.Load(a).Ok? <==> Reader.Load(b).Ok?
    ensures Reader.Load(a).Ok? ==> Reader.Load(a).value.impl == Reader.Load(b).value.impl
    ensures Reader.Load(a).Err? ==> Reader.Load(a) == Reader.Load(b)
  {
  }

  /**
   * The dispatcher writes no storage of its own: after one call, storage is
   * either as it was or as the one class operation that call selects left it.
   */
  lemma StepWritesOnlyThroughClasses(classes: Classes, call: Call, store: Storage)
    ensures var store' := Step(classes, call, store).1;
            match call
            case CreatePort(name, folder, perms, expiry, _) =>
              store' == store
              || store' == classes.generators(Generator.PortGenerator_1_0_0)
                            .create(name, folder, perms, expiry.GetOr(DEFAULT_EXPIRY), store).1
            case FetchNewPorts(_) =>
              store' == store || store' == classes.generators(Generator.PortGenerator_1_0_0).fetchNewPorts(store)
            case AcceptBundle(bundle, perms, folder) =>
              store' == store
              || store' == classes.readers(Reader.PortReader_1_0_0).accept(bundle, perms, folder, store).1
            case _ => store' == store
  {
  }

  /** One call keeps every stored generator record loadable. */
  lemma StepKeepsLoadable(classes: Classes, call: Call, store: Storage)
    requires ClassesKeepLoadable(classes)
    requires AllLoadable(store)
    ensures AllLoadable(Step(classes, call, store).1)
  {
  }

  /** Any sequence of calls keeps every stored generator record loadable. */
  lemma {:induction false} RunKeepsLoadable(classes: Classes, calls: seq<Call>, store: Storage)
    requires ClassesKeepLoadable(classes)
    requires AllLoadable(store)
    ensures AllLoadable(Run(classes, calls, store).1)
    decreases |calls|
  {
    if |calls| > 0 {
      StepKeepsLoadable(classes, calls[0], store);
      RunKeepsLoadable(classes, calls[1..], Step(classes, calls[0], store).1);
    }
  }

  /**
   * In any sequence of calls, every reload either gives back a generator or
   * reports that nothing is stored under the id: it never fails on a version.
   */
  lemma {:induction false} ReloadsNeverFailOnVersion(classes: Classes, calls: seq<Call>, store: Storage)
    requires ClassesKeepLoadable(classes)
    requires AllLoadable(store)
    ensures forall i :: 0 <= i < |calls| && calls[i].ReloadPort? ==>
              ReloadSucceedsOrNotFound(Run(classes, calls, store).0[i])
    decreases |calls|
  {
    if |calls| > 0 {
      var store' := Step(classes, calls[0], store).1;
      StepKeepsLoadable(classes, calls[0], store);
      ReloadsNeverFailOnVersion(classes, calls[1..], store');
      var outs := Run(classes, calls, store).0;
      forall i | 0 <= i < |calls| && calls[i].ReloadPort?
        ensures ReloadSucceedsOrNotFound(outs[i])
      {
        if i > 0 {
          assert calls[i] == calls[1..][i - 1];
          assert outs[i] == Run(classes, calls[1..], store').0[i - 1];
        }
      }
    }
  }

  /** After any sequence of calls, a port reloads exactly when it is stored. */
  lemma StoredPortsReload(classes: Classes, calls: seq<Call>, store: Storage, portId: string)
    requires ClassesKeepLoadable(classes)
    requires AllLoadable(store)
    ensures var final := Run(classes, calls, store).1;
            Generator.FromPortId(portId, final).Ok? <==> portId in final.myPorts
  {
    RunKeepsLoadable(classes, calls, store);
  }
}
