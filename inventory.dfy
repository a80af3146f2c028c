/**
 * The data the Gradle readers consume and produce, and the two mutable collaborators they
 * write into: the inventory model (component factory, raw-license sink and statistics log)
 * and the deprecation checker.
 */
module Inventory {
  import opened Wrappers

  /** One element of the plugin's `licenses` array: the `license` and `license_url` keys. */
  datatype LicenseRec = LicenseRec(license: Option<string>, licenseUrl: Option<string>)

  /**
   * One decoded element of the plugin's top-level JSON array. A key missing from the JSON
   * object is `None`; `licenses == None` is a missing or `null` `licenses` key.
   */
  datatype DepRecord = DepRecord(
    project: Option<string>,
    version: Option<string>,
    url: Option<string>,
    year: Option<string>,
    dependency: Option<string>,
    licenses: Option<seq<LicenseRec>>)

  /** The `Dependency` bean filled by the decode loop; its license list is never null. */
  datatype Dependency = Dependency(
    project: Option<string>,
    version: Option<string>,
    url: Option<string>,
    dependency: Option<string>,
    licenses: seq<LicenseRec>)

  /** The caller's application; only its identity is passed along. */
  datatype Application = Application(name: string)

  /** The caller's usage pattern; only its identity is passed along. */
  datatype UsagePattern = UsagePattern(name: string)

  /** The arguments of one `readInventory` call that end up in the output. */
  datatype Context = Context(
    sourceUrl: string,
    application: Application,
    usagePattern: UsagePattern,
    repoType: string)

  /** An `ApplicationComponent` once the reader has set all its fields. */
  datatype Component = Component(
    application: Application,
    groupId: Option<string>,
    artifactId: Option<string>,
    version: Option<string>,
    ossHomepage: Option<string>,
    usagePattern: UsagePattern,
    repoType: string)

  /** One `addRawLicense` call: the component (by its position in the model), name, url, origin. */
  datatype LicenseRow = LicenseRow(
    component: nat,
    name: Option<string>,
    url: Option<string>,
    sourceUrl: string)

  /** One `doLogging` call: the statistics reported for a source. */
  datatype LogEntry = LogEntry(
    sourceUrl: string,
    application: Application,
    components: int,
    licenses: int)

  /** What a `readInventory` call can raise. */
  datatype Failure =
    | ReadError(message: string, cause: string)  // SolicitorRuntimeException wrapping an IOException
    | NullLicenseList                             // NullPointerException: `licenses` absent
    | NullDependency                              // NullPointerException: `dependency` absent (split variant)
    | MalformedCoordinate(message: string)        // SolicitorRuntimeException: split arity is not 3

  /** How a `readInventory` call ends: normally or by raising. */
  datatype Outcome = Completed | Raised(failure: Failure)

  /** One `DeprecationChecker.check(flag, message)` call. */
  datatype Notice = Notice(flag: bool, message: string)

  /**
   * The part of the inventory model the readers write into: the components attached to the
   * application, the number of components requested from the model factory, the raw license
   * rows and the statistics log.
   */
  class InventoryModel {
    var components: seq<Component>
    var created: nat
    var rawLicenses: seq<LicenseRow>
    var logs: seq<LogEntry>

    /** Every raw license row belongs to a component that exists. */
    ghost predicate Valid()
      reads this
    {
      forall i :: 0 <= i < |rawLicenses| ==> rawLicenses[i].component < |components|
    }

    constructor ()
      ensures Valid()
      ensures components == [] && created == 0 && rawLicenses == [] && logs == []
    {
      components, created, rawLicenses, logs := [], 0, [], [];
    }

    /** `getModelFactory().newApplicationComponent()`: a fresh, still detached component. */
    method NewApplicationComponent()
      requires Valid()
      modifies this
      ensures Valid()
      ensures created == old(created) + 1
      ensures components == old(components) && rawLicenses == old(rawLicenses) && logs == old(logs)
    {
      created := created + 1;
    }

    /** Attaching a filled-in component to its application; `index` is its position. */
    method AddComponent(c: Component) returns (index: nat)
      requires Valid()
      modifies this
      ensures Valid()
      ensures index == old(|components|) && components == old(components) + [c]
      ensures created == old(created) && rawLicenses == old(rawLicenses) && logs == old(logs)
    {
      index := |components|;
      components := components + [c];
    }

    /** `addRawLicense(component, name, url, sourceUrl)`. */
    method AddRawLicense(component: nat, name: Option<string>, url: Option<string>, sourceUrl: string)
      requires Valid() && component < |components|
      modifies this
      ensures Valid()
      ensures rawLicenses == old(rawLicenses) + [LicenseRow(component, name, url, sourceUrl)]
      ensures components == old(components) && created == old(created) && logs == old(logs)
    {
      rawLicenses := rawLicenses + [LicenseRow(component, name, url, sourceUrl)];
    }

    /** `doLogging(sourceUrl, application, components, licenses)`. */
    method DoLogging(sourceUrl: string, application: Application, componentCount: int, licenseCount: int)
      requires Valid()
      modifies this
      ensures Valid()
      ensures logs == old(logs) + [LogEntry(sourceUrl, application, componentCount, licenseCount)]
      ensures components == old(components) && created == old(created) && rawLicenses == old(rawLicenses)
    {
      logs := logs + [LogEntry(sourceUrl, application, componentCount, licenseCount)];
    }
  }

  /**
   * The deprecation checker, reduced to the notices it is given: the model assumes each check
   * returns normally.
   */
  class DeprecationChecker {
    var notices: seq<Notice>

    constructor ()
      ensures notices == []
    {
      notices := [];
    }

    method Check(flag: bool, message: string)
      modifies this
      ensures notices == old(notices) + [Notice(flag, message)]
    {
      notices := notices + [Notice(flag, message)];
    }
  }
}
