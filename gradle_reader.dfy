/**
 * The legacy reader of type `gradle`: it announces its own deprecation, then maps every record
 * of the Gradle License Plugin report onto a component whose groupId, artifactId and version
 * are the record's `project`, `dependency` and `version` fields, copied verbatim.
 */
module GradleLegacy {
  import opened Wrappers
  import opened Inventory
  import opened Coordinates
  import opened InventoryMapper

  const SUPPORTED_TYPE: string := "gradle"

  const DEPRECATION_MESSAGE: string :=
    "Use of Reader of type 'gradle' is deprecated, use 'gradle2' instead. See https://github.com/devonfw/solicitor/issues/58"

  /** The reader types this reader answers to: exactly `gradle`. */
  function SupportedTypes(): (types: set<string>)
    ensures SUPPORTED_TYPE in types
    ensures forall t :: t in types ==> t == SUPPORTED_TYPE
  {
    {SUPPORTED_TYPE}
  }

  /** The legacy reader, wired to the inventory model and to the deprecation checker. */
  class GradleReader {
    const model: InventoryModel
    const deprecationChecker: DeprecationChecker

    constructor (model: InventoryModel, deprecationChecker: DeprecationChecker)
      ensures this.model == model && this.deprecationChecker == deprecationChecker
    {
      this.model := model;
      this.deprecationChecker := deprecationChecker;
    }

    /**
     * `readInventory`: a deprecation check first, whatever the input (the model assumes the
     * check returns normally); then the
     * shared normalisation pass with the verbatim coordinate strategy. `input` is the decoded
     * report, or the cause of the read or decode error.
     */
    method ReadInventory(sourceUrl: string, input: Result<seq<DepRecord>, string>,
                         application: Application, usagePattern: UsagePattern, repoType: string)
      returns (outcome: Outcome)
      requires model.Valid()
      modifies model, deprecationChecker
      ensures model.Valid()
      ensures deprecationChecker.notices == old(deprecationChecker.notices) + [Notice(false, DEPRECATION_MESSAGE)]
      ensures var e := Read(Verbatim, Context(sourceUrl, application, usagePattern, repoType), input,
                            old(|model.components|));
        outcome == e.outcome &&
        model.logs == old(model.logs) + e.logs &&
        model.components == old(model.components) + e.emitted.components &&
        model.rawLicenses == old(model.rawLicenses) + e.emitted.rows &&
        model.created == old(model.created) + e.emitted.created
    {
      deprecationChecker.Check(false, DEPRECATION_MESSAGE);
      outcome := ReadInventoryWith(model, Verbatim, Context(sourceUrl, application, usagePattern, repoType), input);
    }
  }

  /**
   * Once every record has a `licenses` list the legacy read always completes: one component per
   * record, in order, carrying the record's `project`, `dependency`, `version` and `url`
   * unchanged (absent fields stay absent), one factory call per record, and the records'
   * license rows in record order.
   */
  lemma LegacyReadCompletes(ctx: Context, records: seq<DepRecord>, base: nat)
    requires AllLicensesPresent(records)
    ensures Read(Verbatim, ctx, Success(records), base).outcome == Completed
    ensures Read(Verbatim, ctx, Success(records), base).emitted.created == |records|
    ensures |Read(Verbatim, ctx, Success(records), base).emitted.components| == |records|
    ensures forall i :: 0 <= i < |records| ==>
      Read(Verbatim, ctx, Success(records), base).emitted.components[i] ==
        Component(ctx.application, records[i].project, records[i].dependency, records[i].version,
                  records[i].url, ctx.usagePattern, ctx.repoType)
    ensures Read(Verbatim, ctx, Success(records), base).emitted.rows ==
      RowsOfAll(Dependencies(records), base, ctx.sourceUrl)
  {
    var deps := Dependencies(records);
    forall i | 0 <= i < |deps|
      ensures Resolve(Verbatim, deps[i]).Success?
    {
      VerbatimNeverSplits(deps[i]);
    }
    EmissionComplete(Resolutions(Verbatim, deps), deps, ctx, base);
  }
}
