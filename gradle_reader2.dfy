/**
 * The current reader of type `gradle2`: the same normalisation pass as the legacy reader, but
 * the coordinate comes from cutting the record's `dependency` field ("group:artifact:version")
 * at ':'; a record whose field does not cut into exactly three parts stops the read.
 */
module GradleCurrent {
  import opened Wrappers
  import opened Inventory
  import opened JavaSplit
  import opened Coordinates
  import opened InventoryMapper

  const SUPPORTED_TYPE: string := "gradle2"

  /** The reader types this reader answers to: exactly `gradle2`. */
  function SupportedTypes(): (types: set<string>)
    ensures SUPPORTED_TYPE in types
    ensures forall t :: t in types ==> t == SUPPORTED_TYPE
  {
    {SUPPORTED_TYPE}
  }

  /** A record whose `dependency` field is present and cuts into exactly three parts. */
  predicate WellFormedCoordinate(r: DepRecord)
  {
    r.dependency.Some? && |Split(r.dependency.value, ':')| == 3
  }

  /** The current reader, wired to the inventory model. */
  class GradleReader2 {
    const model: InventoryModel

    constructor (model: InventoryModel)
      ensures this.model == model
    {
      this.model := model;
    }

    /**
     * `readInventory`: the shared normalisation pass with the split-into-three coordinate
     * strategy. `input` is the decoded report, or the cause of the read or decode error.
     */
    method ReadInventory(sourceUrl: string, input: Result<seq<DepRecord>, string>,
                         application: Application, usagePattern: UsagePattern, repoType: string)
      returns (outcome: Outcome)
      requires model.Valid()
      modifies model
      ensures model.Valid()
      ensures var e := Read(SplitIntoThree, Context(sourceUrl, application, usagePattern, repoType), input,
                            old(|model.components|));
        outcome == e.outcome &&
        model.logs == old(model.logs) + e.logs &&
        model.components == old(model.components) + e.emitted.components &&
        model.rawLicenses == old(model.rawLicenses) + e.emitted.rows &&
        model.created == old(model.created) + e.emitted.created
    {
      outcome := ReadInventoryWith(model, SplitIntoThree, Context(sourceUrl, application, usagePattern, repoType), input);
    }
  }

  /** A record's coordinate resolves under the split strategy exactly when it is well formed. */
  lemma ResolvesIffWellFormed(r: DepRecord)
    requires r.licenses.Some?
    ensures Resolve(SplitIntoThree, ToDependency(r)).Success? <==> WellFormedCoordinate(r)
  {
  }

  /**
   * A decoded report is read to completion exactly when every record's `dependency` field is
   * present and cuts into three parts; then each component carries those three parts as its
   * groupId, artifactId and version and the record's `url` as homepage, one factory call is made
   * per record, and the records' license rows follow in record order.
   */
  lemma CurrentReadCompletes(ctx: Context, records: seq<DepRecord>, base: nat)
    requires AllLicensesPresent(records)
    ensures Read(SplitIntoThree, ctx, Success(records), base).outcome == Completed <==>
      forall i :: 0 <= i < |records| ==> WellFormedCoordinate(records[i])
    ensures (forall i :: 0 <= i < |records| ==> WellFormedCoordinate(records[i])) ==>
      Read(SplitIntoThree, ctx, Success(records), base).emitted.created == |records| &&
      |Read(SplitIntoThree, ctx, Success(records), base).emitted.components| == |records| &&
      Read(SplitIntoThree, ctx, Success(records), base).emitted.rows ==
        RowsOfAll(Dependencies(records), base, ctx.sourceUrl)
    ensures (forall i :: 0 <= i < |records| ==> WellFormedCoordinate(records[i])) ==>
      forall i :: 0 <= i < |records| ==>
        Read(SplitIntoThree, ctx, Success(records), base).emitted.components[i] ==
          Component(ctx.application,
                    Some(Split(records[i].dependency.value, ':')[0]),
                    Some(Split(records[i].dependency.value, ':')[1]),
                    Some(Split(records[i].dependency.value, ':')[2]),
                    records[i].url, ctx.usagePattern, ctx.repoType)
  {
    var deps := Dependencies(records);
    assert forall i :: 0 <= i < |records| ==>
      (Resolve(SplitIntoThree, deps[i]).Success? <==> WellFormedCoordinate(records[i]));
    DecodedReadLogsCounts(SplitIntoThree, ctx, records, base);
    if forall i :: 0 <= i < |records| ==> WellFormedCoordinate(records[i]) {
      EmissionComplete(Resolutions(SplitIntoThree, deps), deps, ctx, base);
    }
  }

  /**
   * The first record (index `k`) without a well-formed coordinate stops the read with its error:
   * a null dereference when the field is absent, otherwise the error quoting the raw field. By
   * then the statistics for the whole report are logged, the components of the `k` records
   * before it are attached with their license rows, and `k + 1` components have been requested
   * from the factory, the last one never attached.
   */
  lemma CurrentReadStopsAtMalformed(ctx: Context, records: seq<DepRecord>, base: nat, k: nat)
    requires AllLicensesPresent(records)
    requires k < |records| && !WellFormedCoordinate(records[k])
    requires forall i :: 0 <= i < k ==> WellFormedCoordinate(records[i])
    ensures Read(SplitIntoThree, ctx, Success(records), base).outcome ==
      Raised(if records[k].dependency.None? then NullDependency
             else MalformedCoordinate(MALFORMED_PREFIX + records[k].dependency.value + "'"))
    ensures Read(SplitIntoThree, ctx, Success(records), base).logs ==
      [LogEntry(ctx.sourceUrl, ctx.application, |records|, LicenseTotal(Dependencies(records)))]
    ensures Read(SplitIntoThree, ctx, Success(records), base).emitted.created == k + 1
    ensures |Read(SplitIntoThree, ctx, Success(records), base).emitted.components| == k
    ensures forall i :: 0 <= i < k ==>
      WellFormedCoordinate(records[i]) &&
      Read(SplitIntoThree, ctx, Success(records), base).emitted.components[i] ==
        Component(ctx.application,
                  Some(Split(records[i].dependency.value, ':')[0]),
                  Some(Split(records[i].dependency.value, ':')[1]),
                  Some(Split(records[i].dependency.value, ':')[2]),
                  records[i].url, ctx.usagePattern, ctx.repoType)
    ensures Read(SplitIntoThree, ctx, Success(records), base).emitted.rows ==
      RowsOfAll(Dependencies(records)[..k], base, ctx.sourceUrl)
  {
    var deps := Dependencies(records);
    assert forall i :: 0 <= i < |records| ==>
      (Resolve(SplitIntoThree, deps[i]).Success? <==> WellFormedCoordinate(records[i]));
    EmissionStopsAtFirstFailure(Resolutions(SplitIntoThree, deps), deps, ctx, base, k);
  }
}
