# Single-use port dispatcher

A Dafny model of the `Port` namespace of the port-mobile messaging app
(`src/utils/Ports/SingleUsePorts/Port.ts`). A single-use port is a one-shot
invitation that lets two users become contacts. The namespace dispatches on
a version string to the class that owns each port format. It has two halves:

- `Port.generator` covers the outgoing side: `select`, `load`, `fromPortId`,
  `fetchNewPorts` and `create`.
- `Port.reader` covers the incoming side: `select`, `load`, `validateBundle`
  and `accept`.

The model has these modules:

- `Wrappers` defines `Option` and `Result`. A thrown error is an `Err` value.
- `PortRecords` holds the records, the storage and the `PortError` datatype.
  Each error message of the source is one constructor of `PortError`.
- `Dispatch` holds the version `switch`, modelled as a table of cases. The
  first case whose label equals the version wins. It also holds JavaScript
  truthiness of an optional string (`Specified`).
- `Generator` and `Reader` hold the two halves, one function per exported
  member.
- `Lifecycle` holds sequences of calls and the properties that relate
  several operations.

The version classes `PortGenerator_1_0_0` and `PortReader_1_0_0` are not part
of this model. Neither is the storage layer. Each class is a record of
function values (`GeneratorOps`, `ReaderOps`) passed in as a parameter, so
every property holds for any function of their arguments and the storage. Three things are
fixed rather than left open, and "## Left out" lists them: the class
constructors wrap a record without throwing or changing it,
`storage.getPortData` is a lookup that never throws, and a class's
`validateBundle` reads no storage. Storage is a value (`Storage`) that the
class operations take and return. `fromPortId` reads its `myPorts` map, which
models `storage.getPortData`. Each `await` is one sequential step.

## Model

| member | source | states |
|---|---|---|
| Dispatch.Lookup | src/utils/Ports/SingleUsePorts/Port.ts:45-52 | the `switch` finds a class exactly when some case carries the version label, and the class it finds is the one of the first such case |
| Generator.Select | src/utils/Ports/SingleUsePorts/Port.ts:41-53 | selection succeeds exactly for "1.0.0"; an absent or empty version fails as "not specified"; every other string fails as "unsupported" and carries that string |
| Generator.Load | src/utils/Ports/SingleUsePorts/Port.ts:60-62 | a record loads exactly when its own version is "1.0.0"; the instance wraps the record unchanged; otherwise the error is the selector's error for that version |
| Generator.FromPortId | src/utils/Ports/SingleUsePorts/Port.ts:70-78 | "NoUsedPortFound" exactly when storage has no record under the id; success exactly when the stored record has version "1.0.0", wrapping that record; otherwise the stored version's selection error |
| Generator.FetchNewPorts | src/utils/Ports/SingleUsePorts/Port.ts:83-85 | succeeds exactly when the version is omitted or "1.0.0"; it then runs that class's fetch on the storage; a failed selection leaves storage untouched |
| Generator.Create | src/utils/Ports/SingleUsePorts/Port.ts:97-114 | the version defaults to "1.0.0" and the expiry to option 4; name, folder, permissions and expiry reach the class unchanged; "NoPortWasCreated" when the class returns no record; otherwise the result is the returned record loaded by its own version; a failed selection leaves storage untouched |
| Reader.Select | src/utils/Ports/SingleUsePorts/Port.ts:129-141 | selection succeeds exactly for "1.0.0"; an absent or empty version fails as "not specified"; every other string fails as "unsupported" |
| Reader.Load | src/utils/Ports/SingleUsePorts/Port.ts:148-150 | a reader record loads exactly when its own version is "1.0.0"; the instance wraps the record unchanged; otherwise the selector's error |
| Reader.ValidateBundle | src/utils/Ports/SingleUsePorts/Port.ts:158-163 | an absent bundle, or one with a missing or empty version, is "Invalid bundle data" before any dispatch; an unknown version is "unsupported"; for "1.0.0" the class's own validation decides; the "not specified" error can never come out |
| Reader.Accept | src/utils/Ports/SingleUsePorts/Port.ts:173-183 | dispatches on the bundle's version; permissions and folder reach the class unchanged; "NoPortWasAccepted" when the class returns no record; otherwise the returned record loaded by its own version; a failed selection leaves storage untouched |
| Lifecycle.SelectorsAgree | src/utils/Ports/SingleUsePorts/Port.ts:41-53 | the generator selector (and the reader's, lines 129-141) accepts a version exactly when it is truthy and registered in the table; both halves accept the same versions and report "not specified" for the same inputs |
| Lifecycle.LatestVersionsSelectable | src/utils/Ports/SingleUsePorts/Port.ts:33 | the generator's latest version (and the reader's, line 121) has a registered class |
| Lifecycle.LoadDependsOnlyOnVersion | src/utils/Ports/SingleUsePorts/Port.ts:60-62 | two records with the same version tag load to the same class, or fail with the same error, whatever their other fields |
| Lifecycle.ReaderLoadDependsOnlyOnVersion | src/utils/Ports/SingleUsePorts/Port.ts:148-150 | two reader records with the same version tag load to the same class, or fail with the same error, whatever their other fields |
| Lifecycle.StepWritesOnlyThroughClasses | src/utils/Ports/SingleUsePorts/Port.ts:70-183 | the dispatcher writes no storage of its own: after any call, storage is unchanged or exactly what the one class operation the call selects returned |
| Lifecycle.DefaultVersionCreate | src/utils/Ports/SingleUsePorts/Port.ts:97-113 | a create without a version never fails in class selection; a version error can only come from a returned record whose tag is not "1.0.0" |
| Lifecycle.CreateThenReload | src/utils/Ports/SingleUsePorts/Port.ts:70-113 | if the class stored the record it returned under its id, reloading that id gives the same generator; if the class also kept the name, folder and expiry, the reloaded record carries the values the caller passed |
| Lifecycle.ValidatedBundleAccepts | src/utils/Ports/SingleUsePorts/Port.ts:158-183 | a bundle that passed validation, when the class kept its version tag, carries version "1.0.0"; accepting it runs the "1.0.0" reader class with the chosen permissions and folder |
| Lifecycle.StepKeepsLoadable | src/utils/Ports/SingleUsePorts/Port.ts:60-62 | if the classes only store records of a registered version, no single call breaks "every stored record loads" |
| Lifecycle.RunKeepsLoadable | src/utils/Ports/SingleUsePorts/Port.ts:60-62 | under the same condition, no sequence of calls breaks "every stored record loads" |
| Lifecycle.ReloadsNeverFailOnVersion | src/utils/Ports/SingleUsePorts/Port.ts:70-78 | under the same condition, every reload in any sequence of calls either gives a generator or reports "NoUsedPortFound"; it never fails on a version |
| Lifecycle.StoredPortsReload | src/utils/Ports/SingleUsePorts/Port.ts:70-78 | under the same condition, after any sequence of calls a port id reloads exactly when storage holds a record under it |

## Left out

- `src/components/ComponentUtils.ts`: colour, font and spacing tables with no behaviour. `screen` and `isIOS` are runtime calls into the platform.
- `src/components/Reusable/BottomSheets/AddingContactBottomSheet.tsx`: a UI component.
- `src/utils/TriggerTools/RedrawTriggerListener/useListenForTrigger.ts`: a Redux selector hook.
- The bodies of `PortGenerator_1_0_0`, `PortReader_1_0_0` and the storage layer are not part of this model. Their static operations are arbitrary functions of their arguments and the storage, so nothing is assumed about folders, bundle fields or expiry, nor about how ids are derived from those inputs.
- Class operations are deterministic in their arguments and the storage. The server that `fetchNewPorts` pulls from (Port.ts line 80), the clock and any randomness are not inputs. So a call that left storage unchanged gives the same outcome when repeated, and a retry that succeeds after a failure on the same storage is outside the sequences of calls the model covers.
- `create` and `fetchNewPorts` apply their defaults to an omitted argument (`None`). An explicit `null` in JavaScript would not take the default and would fail as "not specified"; it is not modelled separately.
- Generator.Load: the constructor `new (select(version))(portData)` (Port.ts line 61) is assumed to wrap the record without throwing or changing it; the constructor's body is not part of this model.
- Reader.Load: the constructor `new (select(version))(portData)` (Port.ts line 149) is assumed to wrap the record without throwing or changing it; the constructor's body is not part of this model.
- Generator.FromPortId: `storage.getPortData` (Port.ts line 72) is assumed to be a lookup in `myPorts` that never throws; the storage layer is not part of this model.
- Reader.ValidateBundle: a class's own `validateBundle` is modelled as a pure function of the bundle that reads no storage.
- `PermissionsStrict` and the bundle's class-specific fields are opaque types. An expiry is its index in the `expiryOptions` list; the list itself is not part of this model.
- Errors thrown inside a class's `create`, `accept` or `fetchNewPorts` are not modelled: these return an optional record. The class's `validateBundle` may throw, and its message is passed through as `BundleRejected`.
- A version that is present but not a string is not modelled. Versions are optional strings. Only `undefined` and `""` are falsy.
- `async`/`await` and concurrency: each call is one sequential step.
- Determinism of `select` needs no lemma: every member is a mathematical function of its arguments.
- Lifecycle.DefaultVersionCreate: weaker than "a default-version create never throws a version error". `create` loads the returned record by that record's own version. A class that returned a record with another tag would make it throw "unsupported".
- Lifecycle.CreateThenReload: holds only if the class stores the record it returns under that record's id and keeps the caller's values. Those classes are not part of this model.
- Whether an accepted record carries the folder the user chose, and whether validation keeps the bundle's version, depend only on the reader class. Nothing is stated about them beyond passing the arguments through.
- Lifecycle.ValidatedBundleAccepts: holds only if the reader class's validation keeps the bundle's version tag.

## Behaviour of the source worth noting

- `select` tests `!version` (Port.ts line 42), so both an absent version and the empty string fail as "not specified". A default parameter replaces only an omitted version, so `create` or `fetchNewPorts` with an explicit `""` fails as "not specified" and does not use the latest version.
- `fromPortId` returns the record `getPortData` gives for the id (Port.ts line 72). That record's `id` equals the requested id only if storage keys records by their id.
- `validateBundle` throws "Invalid bundle data" only for the generic check (Port.ts line 159). A failure in the class's own validation is whatever that class throws.
- `create` loads the returned record by that record's own version (Port.ts line 113), and `load` succeeds only for version "1.0.0". A record with any other version, or an empty one, fails to load.
