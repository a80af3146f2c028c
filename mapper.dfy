/**
 * The normalisation pass both Gradle readers share: the decode loop that copies each record
 * into a `Dependency` and counts components and licenses, the license normaliser with its
 * single (null, null) fallback row, and the loop that creates one component per dependency.
 * `Read` specifies one whole `readInventory` call; the methods are proved against it.
 */
module InventoryMapper {
  import opened Wrappers
  import opened Inventory
  import opened Coordinates

  const READ_ERROR_PREFIX: string := "Could not read Gradle inventory source '"

  /* ---------- decode loop ---------- */

  /** Every record has a `licenses` list; otherwise the decode loop dereferences null. */
  predicate AllLicensesPresent(records: seq<DepRecord>)
  {
    forall i :: 0 <= i < |records| ==> records[i].licenses.Some?
  }

  /** The `Dependency` bean built from one record: everything but `year` is carried on. */
  function ToDependency(r: DepRecord): (d: Dependency)
    requires r.licenses.Some?
    ensures DepRecord(d.project, d.version, d.url, r.year, d.dependency, Some(d.licenses)) == r
  {
    Dependency(r.project, r.version, r.url, r.dependency, r.licenses.value)
  }

  /** The beans for all records, in record order. */
  function Dependencies(records: seq<DepRecord>): (deps: seq<Dependency>)
    requires AllLicensesPresent(records)
    ensures |deps| == |records|
  {
    seq(|records|, i requires 0 <= i < |records| => ToDependency(records[i]))
  }

  /** The number of licenses listed over all dependencies. */
  function LicenseTotal(deps: seq<Dependency>): nat
    decreases |deps|
  {
    if deps == [] then 0 else LicenseTotal(deps[..|deps| - 1]) + |deps[|deps| - 1].licenses|
  }

  /** The number of dependencies whose license list is empty. */
  function FallbackCount(deps: seq<Dependency>): nat
    decreases |deps|
  {
    if deps == [] then 0
    else FallbackCount(deps[..|deps| - 1]) + (if deps[|deps| - 1].licenses == [] then 1 else 0)
  }

  lemma LicenseTotalAppend(deps: seq<Dependency>, d: Dependency)
    ensures LicenseTotal(deps + [d]) == LicenseTotal(deps) + |d.licenses|
  {
    assert (deps + [d])[..|deps|] == deps;
  }

  /** What the decode loop hands on: the beans and the two counters. */
  datatype Decoded = Decoded(deps: seq<Dependency>, components: int, licenses: int)

  /**
   * The decode loop: one bean per record in order, `components` counts the records and
   * `licenses` the licenses listed; a record without a `licenses` list aborts it.
   */
  method DecodeRecords(records: seq<DepRecord>) returns (r: Result<Decoded, Failure>)
    ensures r.Failure? <==> !AllLicensesPresent(records)
    ensures r.Failure? ==> r.error == NullLicenseList
    ensures r.Success? ==> AllLicensesPresent(records) && r.value.deps == Dependencies(records)
    ensures r.Success? ==> r.value.components == |records| && r.value.licenses == LicenseTotal(r.value.deps)
  {
    var components := 0;
    var licenses := 0;
    var deps: seq<Dependency> := [];
    var i := 0;
    while i < |records|
      invariant 0 <= i <= |records|
      invariant forall k :: 0 <= k < i ==> records[k].licenses.Some?
      invariant |deps| == i && forall k :: 0 <= k < i ==> deps[k] == ToDependency(records[k])
      invariant components == i && licenses == LicenseTotal(deps)
    {
      var m := records[i];
      components := components + 1;
      if m.licenses.None? {
        return Failure(NullLicenseList);
      }
      var lml := m.licenses.value;
      var ll: seq<LicenseRec> := [];
      var j := 0;
      while j < |lml|
        invariant 0 <= j <= |lml|
        invariant ll == lml[..j]
        invariant licenses == LicenseTotal(deps) + j
      {
        ll := ll + [LicenseRec(lml[j].license, lml[j].licenseUrl)];
        licenses := licenses + 1;
        j := j + 1;
      }
      assert ll == lml;
      var dep := Dependency(m.project, m.version, m.url, m.dependency, ll);
      LicenseTotalAppend(deps, dep);
      deps := deps + [dep];
      i := i + 1;
    }
    r := Success(Decoded(deps, components, licenses));
  }

  /* ---------- license normaliser ---------- */

  /** One row per license, in list order, fields passed through. */
  function RowsFor(component: nat, licenses: seq<LicenseRec>, sourceUrl: string): seq<LicenseRow>
  {
    seq(|licenses|, j requires 0 <= j < |licenses| =>
      LicenseRow(component, licenses[j].license, licenses[j].licenseUrl, sourceUrl))
  }

  /**
   * The rows attached to one component: the (null, null) row when there is no license. There is
   * always at least one row, one per license otherwise, and every row names the component.
   */
  function LicenseRows(component: nat, licenses: seq<LicenseRec>, sourceUrl: string): (rows: seq<LicenseRow>)
    ensures |rows| == (if licenses == [] then 1 else |licenses|)
    ensures forall j :: 0 <= j < |rows| ==> rows[j].component == component && rows[j].sourceUrl == sourceUrl
  {
    if licenses == [] then [LicenseRow(component, None, None, sourceUrl)]
    else RowsFor(component, licenses, sourceUrl)
  }

  /**
   * An empty list yields exactly one row with neither name nor url; a list of K licenses yields
   * exactly K rows whose name and url are the licenses' own, in list order. Every row names the
   * component and the source.
   */
  lemma LicenseRowsShape(component: nat, licenses: seq<LicenseRec>, sourceUrl: string)
    ensures |LicenseRows(component, licenses, sourceUrl)| == (if licenses == [] then 1 else |licenses|)
    ensures forall j :: 0 <= j < |LicenseRows(component, licenses, sourceUrl)| ==>
      LicenseRows(component, licenses, sourceUrl)[j].component == component &&
      LicenseRows(component, licenses, sourceUrl)[j].sourceUrl == sourceUrl
    ensures licenses == [] ==>
      LicenseRows(component, licenses, sourceUrl)[0].name.None? && LicenseRows(component, licenses, sourceUrl)[0].url.None?
    ensures forall j :: 0 <= j < |licenses| ==>
      LicenseRows(component, licenses, sourceUrl)[j].name == licenses[j].license &&
      LicenseRows(component, licenses, sourceUrl)[j].url == licenses[j].licenseUrl
  {
  }

  /** `addRawLicense` for every row of `LicenseRows`. */
  method AttachLicenses(model: InventoryModel, component: nat, licenses: seq<LicenseRec>, sourceUrl: string)
    requires model.Valid() && component < |model.components|
    modifies model
    ensures model.Valid()
    ensures model.rawLicenses == old(model.rawLicenses) + LicenseRows(component, licenses, sourceUrl)
    ensures model.components == old(model.components) && model.created == old(model.created)
    ensures model.logs == old(model.logs)
  {
    if licenses == [] {
      model.AddRawLicense(component, None, None, sourceUrl);
    } else {
      var j := 0;
      while j < |licenses|
        invariant 0 <= j <= |licenses|
        invariant model.Valid()
        invariant model.rawLicenses == old(model.rawLicenses) + RowsFor(component, licenses[..j], sourceUrl)
        invariant model.components == old(model.components) && model.created == old(model.created)
        invariant model.logs == old(model.logs)
      {
        model.AddRawLicense(component, licenses[j].license, licenses[j].licenseUrl, sourceUrl);
        assert licenses[..j + 1][..j] == licenses[..j];
        j := j + 1;
      }
      assert licenses[..|licenses|] == licenses;
    }
  }

  /* ---------- component emission ---------- */

  /**
   * The component built from a resolved coordinate, the dependency's url and the caller's
   * context: the coordinate and every context field but `sourceUrl` can be read back from it.
   */
  function ComponentFor(c: Coordinate, d: Dependency, ctx: Context): (comp: Component)
    ensures Coordinate(comp.groupId, comp.artifactId, comp.version) == c
    ensures Context(ctx.sourceUrl, comp.application, comp.usagePattern, comp.repoType) == ctx
    ensures comp.ossHomepage == d.url
  {
    Component(ctx.application, c.groupId, c.artifactId, c.version, d.url, ctx.usagePattern, ctx.repoType)
  }

  /**
   * What the emission loop adds to the model: attached components, license rows, the number of
   * components requested from the factory, and the failure that stopped it, if any.
   */
  datatype Emitted = Emitted(components: seq<Component>, rows: seq<LicenseRow>, created: nat, failure: Option<Failure>)

  /** The coordinate of every dependency under strategy `res`, in order. */
  function Resolutions(res: Resolution, deps: seq<Dependency>): (coords: seq<Result<Coordinate, Failure>>)
    ensures |coords| == |deps|
    ensures forall i :: 0 <= i < |deps| ==> coords[i] == Resolve(res, deps[i])
  {
    seq(|deps|, i requires 0 <= i < |deps| => Resolve(res, deps[i]))
  }

  /**
   * The emission loop over `deps`, whose coordinates resolve to `coords`, the first new component
   * getting position `base`.
   */
  function Emission(coords: seq<Result<Coordinate, Failure>>, deps: seq<Dependency>, ctx: Context, base: nat): (e: Emitted)
    requires |coords| == |deps|
    ensures e.created == |e.components| + (if e.failure.Some? then 1 else 0)
    ensures e.created <= |deps|
    ensures e.failure.None? ==> e.created == |deps|
    decreases |deps|
  {
    if deps == [] then Emitted([], [], 0, None)
    else
      var n := |deps| - 1;
      var prev := Emission(coords[..n], deps[..n], ctx, base);
      if prev.failure.Some? then prev
      else
        match coords[n]
        case Failure(f) => Emitted(prev.components, prev.rows, prev.created + 1, Some(f))
        case Success(c) =>
          Emitted(prev.components + [ComponentFor(c, deps[n], ctx)],
                  prev.rows + LicenseRows(base + |prev.components|, deps[n].licenses, ctx.sourceUrl),
                  prev.created + 1, None)
  }

  /** The rows of all dependencies, the i-th dependency's rows naming position `base + i`. */
  function RowsOfAll(deps: seq<Dependency>, base: nat, sourceUrl: string): seq<LicenseRow>
    decreases |deps|
  {
    if deps == [] then []
    else
      var n := |deps| - 1;
      RowsOfAll(deps[..n], base, sourceUrl) + LicenseRows(base + n, deps[n].licenses, sourceUrl)
  }

  /** Every dependency contributes max(1, K) rows: K licenses plus one fallback row when K = 0. */
  lemma {:induction false} RowsOfAllCount(deps: seq<Dependency>, base: nat, sourceUrl: string)
    ensures |RowsOfAll(deps, base, sourceUrl)| == LicenseTotal(deps) + FallbackCount(deps)
    decreases |deps|
  {
    if deps != [] {
      var n := |deps| - 1;
      var init := RowsOfAll(deps[..n], base, sourceUrl);
      var last := LicenseRows(base + n, deps[n].licenses, sourceUrl);
      assert RowsOfAll(deps, base, sourceUrl) == init + last;
      assert |init| == LicenseTotal(deps[..n]) + FallbackCount(deps[..n]) by {
        RowsOfAllCount(deps[..n], base, sourceUrl);
      }
      assert |last| == if deps[n].licenses == [] then 1 else |deps[n].licenses| by {
        LicenseRowsShape(base + n, deps[n].licenses, sourceUrl);
      }
    }
  }

  /** The rows of the i-th dependency name component position `base + i`. */
  lemma {:induction false} RowsOfAllBounds(deps: seq<Dependency>, base: nat, sourceUrl: string)
    ensures forall j :: 0 <= j < |RowsOfAll(deps, base, sourceUrl)| ==>
      base <= RowsOfAll(deps, base, sourceUrl)[j].component < base + |deps|
    decreases |deps|
  {
    if deps != [] {
      var n := |deps| - 1;
      var init := RowsOfAll(deps[..n], base, sourceUrl);
      var last := LicenseRows(base + n, deps[n].licenses, sourceUrl);
      var rows: seq<LicenseRow> := init + last;
      assert RowsOfAll(deps, base, sourceUrl) == rows;
      RowsOfAllBounds(deps[..n], base, sourceUrl);
      LicenseRowsComponent(base + n, deps[n].licenses, sourceUrl);
      forall j | 0 <= j < |rows|
        ensures base <= rows[j].component < base + |deps|
      {
        if j < |init| {
          assert rows[j] == init[j];
          assert base <= init[j].component < base + n;
        } else {
          assert rows[j] == last[j - |init|];
          assert last[j - |init|].component == base + n;
        }
      }
    }
  }

  /** All rows of `LicenseRows` name the component they were made for. */
  lemma LicenseRowsComponent(component: nat, licenses: seq<LicenseRec>, sourceUrl: string)
    ensures forall j :: 0 <= j < |LicenseRows(component, licenses, sourceUrl)| ==>
      LicenseRows(component, licenses, sourceUrl)[j].component == component
  {
    LicenseRowsShape(component, licenses, sourceUrl);
  }

  /** The emission fails iff some dependency's coordinate does not resolve. */
  lemma {:induction false} EmissionFailsIff(coords: seq<Result<Coordinate, Failure>>, deps: seq<Dependency>, ctx: Context, base: nat)
    requires |coords| == |deps|
    ensures Emission(coords, deps, ctx, base).failure.None? <==>
      forall i :: 0 <= i < |coords| ==> coords[i].Success?
    decreases |deps|
  {
    if deps != [] {
      var n := |deps| - 1;
      EmissionFailsIff(coords[..n], deps[..n], ctx, base);
      assert forall i :: 0 <= i < n ==> coords[..n][i] == coords[i];
    }
  }

  /** When every coordinate resolves: no failure, and one factory call and one component per dependency. */
  lemma {:induction false} EmissionCompleteCounts(coords: seq<Result<Coordinate, Failure>>, deps: seq<Dependency>, ctx: Context, base: nat)
    requires |coords| == |deps|
    requires forall i :: 0 <= i < |coords| ==> coords[i].Success?
    ensures Emission(coords, deps, ctx, base).failure.None?
    ensures Emission(coords, deps, ctx, base).created == |deps|
    ensures |Emission(coords, deps, ctx, base).components| == |deps|
    decreases |deps|
  {
    if deps != [] {
      var n := |deps| - 1;
      assert coords[n].Success?;
      EmissionCompleteCounts(coords[..n], deps[..n], ctx, base);
    }
  }

  /** When every coordinate resolves, the i-th component is built from the i-th dependency. */
  lemma {:induction false} EmissionCompleteComponents(coords: seq<Result<Coordinate, Failure>>, deps: seq<Dependency>, ctx: Context, base: nat)
    requires |coords| == |deps|
    requires forall i :: 0 <= i < |coords| ==> coords[i].Success?
    ensures |Emission(coords, deps, ctx, base).components| == |deps|
    ensures forall i :: 0 <= i < |deps| ==>
      Emission(coords, deps, ctx, base).components[i] == ComponentFor(coords[i].value, deps[i], ctx)
    decreases |deps|
  {
    EmissionCompleteCounts(coords, deps, ctx, base);
    if deps != [] {
      var n := |deps| - 1;
      var init, initCoords := deps[..n], coords[..n];
      assert forall i :: 0 <= i < n ==> init[i] == deps[i] && initCoords[i] == coords[i];
      EmissionCompleteComponents(initCoords, init, ctx, base);
      EmissionCompleteCounts(initCoords, init, ctx, base);
      var prev := Emission(initCoords, init, ctx, base).components;
      var component := ComponentFor(coords[n].value, deps[n], ctx);
      assert Emission(coords, deps, ctx, base).components == prev + [component];
    }
  }

  /** When every coordinate resolves, the rows are those of `RowsOfAll`. */
  lemma {:induction false} EmissionCompleteRows(coords: seq<Result<Coordinate, Failure>>, deps: seq<Dependency>, ctx: Context, base: nat)
    requires |coords| == |deps|
    requires forall i :: 0 <= i < |coords| ==> coords[i].Success?
    ensures Emission(coords, deps, ctx, base).rows == RowsOfAll(deps, base, ctx.sourceUrl)
    decreases |deps|
  {
    if deps != [] {
      var n := |deps| - 1;
      var init, initCoords := deps[..n], coords[..n];
      assert forall i :: 0 <= i < n ==> initCoords[i] == coords[i];
      var prev := Emission(initCoords, init, ctx, base);
      assert |prev.components| == n && prev.failure.None? by {
        EmissionCompleteCounts(initCoords, init, ctx, base);
      }
      EmissionCompleteRows(initCoords, init, ctx, base);
      assert coords[n].Success?;
    }
  }

  /**
   * When every coordinate resolves: one component per dependency, in order, built from that
   * dependency and its coordinate; one factory call per dependency; and the rows of `RowsOfAll`.
   */
  lemma EmissionComplete(coords: seq<Result<Coordinate, Failure>>, deps: seq<Dependency>, ctx: Context, base: nat)
    requires |coords| == |deps|
    requires forall i :: 0 <= i < |coords| ==> coords[i].Success?
    ensures Emission(coords, deps, ctx, base).failure.None?
    ensures Emission(coords, deps, ctx, base).created == |deps|
    ensures |Emission(coords, deps, ctx, base).components| == |deps|
    ensures forall i :: 0 <= i < |deps| ==>
      Emission(coords, deps, ctx, base).components[i] == ComponentFor(coords[i].value, deps[i], ctx)
    ensures Emission(coords, deps, ctx, base).rows == RowsOfAll(deps, base, ctx.sourceUrl)
  {
    EmissionCompleteCounts(coords, deps, ctx, base);
    EmissionCompleteComponents(coords, deps, ctx, base);
    EmissionCompleteRows(coords, deps, ctx, base);
  }

  /** Once the emission of a prefix has failed, further dependencies change nothing. */
  lemma {:induction false} EmissionAfterFailure(coords: seq<Result<Coordinate, Failure>>, deps: seq<Dependency>, ctx: Context, base: nat, k: nat)
    requires |coords| == |deps| && k <= |deps|
    requires Emission(coords[..k], deps[..k], ctx, base).failure.Some?
    ensures Emission(coords, deps, ctx, base) == Emission(coords[..k], deps[..k], ctx, base)
    decreases |deps|
  {
    if k < |deps| {
      var n := |deps| - 1;
      assert deps[..n][..k] == deps[..k] && coords[..n][..k] == coords[..k];
      EmissionAfterFailure(coords[..n], deps[..n], ctx, base, k);
    } else {
      assert deps[..k] == deps && coords[..k] == coords;
    }
  }

  /**
   * The first dependency whose coordinate does not resolve stops the emission with its error:
   * the components of all earlier dependencies stay emitted, with their rows, and one more
   * component has been requested from the factory.
   */
  lemma EmissionStopsAtFirstFailure(coords: seq<Result<Coordinate, Failure>>, deps: seq<Dependency>, ctx: Context, base: nat, k: nat)
    requires |coords| == |deps|
    requires k < |deps| && coords[k].Failure?
    requires forall i :: 0 <= i < k ==> coords[i].Success?
    ensures Emission(coords, deps, ctx, base).failure == Some(coords[k].error)
    ensures Emission(coords, deps, ctx, base).created == k + 1
    ensures |Emission(coords, deps, ctx, base).components| == k
    ensures forall i :: 0 <= i < k ==>
      Emission(coords, deps, ctx, base).components[i] == ComponentFor(coords[i].value, deps[i], ctx)
    ensures Emission(coords, deps, ctx, base).rows == RowsOfAll(deps[..k], base, ctx.sourceUrl)
  {
    var init, initCoords := deps[..k], coords[..k];
    assert deps[..k + 1][..k] == init && coords[..k + 1][..k] == initCoords;
    assert forall i :: 0 <= i < k ==> init[i] == deps[i] && initCoords[i] == coords[i];
    EmissionComplete(initCoords, init, ctx, base);
    EmissionAfterFailure(coords, deps, ctx, base, k + 1);
  }

  /** One more dependency whose coordinate resolves: its component and rows are appended. */
  lemma EmissionStep(coords: seq<Result<Coordinate, Failure>>, deps: seq<Dependency>, ctx: Context, base: nat, i: nat)
    requires |coords| == |deps| && i < |deps| && coords[i].Success?
    requires Emission(coords[..i], deps[..i], ctx, base).failure.None?
    ensures var prev := Emission(coords[..i], deps[..i], ctx, base);
      Emission(coords[..i + 1], deps[..i + 1], ctx, base) ==
        Emitted(prev.components + [ComponentFor(coords[i].value, deps[i], ctx)],
                prev.rows + LicenseRows(base + |prev.components|, deps[i].licenses, ctx.sourceUrl),
                prev.created + 1, None)
  {
    assert deps[..i + 1][..i] == deps[..i] && coords[..i + 1][..i] == coords[..i];
  }

  /** The first dependency whose coordinate does not resolve: only the factory call is added. */
  lemma EmissionFailStep(coords: seq<Result<Coordinate, Failure>>, deps: seq<Dependency>, ctx: Context, base: nat, i: nat)
    requires |coords| == |deps| && i < |deps| && coords[i].Failure?
    requires Emission(coords[..i], deps[..i], ctx, base).failure.None?
    ensures var prev := Emission(coords[..i], deps[..i], ctx, base);
      Emission(coords, deps, ctx, base) ==
        Emitted(prev.components, prev.rows, prev.created + 1, Some(coords[i].error))
  {
    assert deps[..i + 1][..i] == deps[..i] && coords[..i + 1][..i] == coords[..i];
    EmissionAfterFailure(coords, deps, ctx, base, i + 1);
  }

  /** One iteration of the emission loop: request a component, resolve, attach it, add its rows. */
  method EmitOne(model: InventoryModel, res: Resolution, d: Dependency, ctx: Context)
    returns (failure: Option<Failure>)
    requires model.Valid()
    modifies model
    ensures model.Valid()
    ensures model.created == old(model.created) + 1 && model.logs == old(model.logs)
    ensures Resolve(res, d).Failure? ==>
      failure == Some(Resolve(res, d).error) &&
      model.components == old(model.components) && model.rawLicenses == old(model.rawLicenses)
    ensures Resolve(res, d).Success? ==>
      failure.None? &&
      model.components == old(model.components) + [ComponentFor(Resolve(res, d).value, d, ctx)] &&
      model.rawLicenses == old(model.rawLicenses) + LicenseRows(old(|model.components|), d.licenses, ctx.sourceUrl)
  {
    model.NewApplicationComponent();
    var coordinate := Resolve(res, d);
    if coordinate.Failure? {
      return Some(coordinate.error);
    }
    var index := model.AddComponent(ComponentFor(coordinate.value, d, ctx));
    AttachLicenses(model, index, d.licenses, ctx.sourceUrl);
    failure := None;
  }

  /**
   * One resolved dependency extends the emitted prefix: appending its component and rows to
   * what the model held before the loop plus the prefix gives the longer prefix's state.
   */
  lemma EmissionExtends(coords: seq<Result<Coordinate, Failure>>, deps: seq<Dependency>, ctx: Context, i: nat,
                        components0: seq<Component>, rows0: seq<LicenseRow>)
    requires |coords| == |deps| && i < |deps| && coords[i].Success?
    requires Emission(coords[..i], deps[..i], ctx, |components0|).failure.None?
    ensures var base := |components0|;
      var prev := Emission(coords[..i], deps[..i], ctx, base);
      var next := Emission(coords[..i + 1], deps[..i + 1], ctx, base);
      next.failure.None? && next.created == prev.created + 1 &&
      (components0 + prev.components) + [ComponentFor(coords[i].value, deps[i], ctx)] == components0 + next.components &&
      (rows0 + prev.rows) + LicenseRows(|components0 + prev.components|, deps[i].licenses, ctx.sourceUrl) ==
        rows0 + next.rows
  {
    var base := |components0|;
    var prev := Emission(coords[..i], deps[..i], ctx, base);
    var component := ComponentFor(coords[i].value, deps[i], ctx);
    var rows := LicenseRows(base + |prev.components|, deps[i].licenses, ctx.sourceUrl);
    EmissionStep(coords, deps, ctx, base, i);
    assert (components0 + prev.components) + [component] == components0 + (prev.components + [component]);
    assert (rows0 + prev.rows) + rows == rows0 + (prev.rows + rows);
  }

  /** The emission loop: one `EmitOne` per dependency, in order, up to the first failure. */
  method EmitComponents(model: InventoryModel, res: Resolution, deps: seq<Dependency>, ctx: Context)
    returns (failure: Option<Failure>)
    requires model.Valid()
    modifies model
    ensures model.Valid()
    ensures var e := Emission(Resolutions(res, deps), deps, ctx, old(|model.components|));
      failure == e.failure &&
      model.components == old(model.components) + e.components &&
      model.rawLicenses == old(model.rawLicenses) + e.rows &&
      model.created == old(model.created) + e.created
    ensures model.logs == old(model.logs)
  {
    ghost var base := |model.components|;
    ghost var coords := Resolutions(res, deps);
    ghost var done := Emitted([], [], 0, None);
    assert deps[..0] == [] && coords[..0] == [];
    var i := 0;
    while i < |deps|
      invariant 0 <= i <= |deps|
      invariant model.Valid()
      invariant done == Emission(coords[..i], deps[..i], ctx, base) && done.failure.None?
      invariant model.components == old(model.components) + done.components
      invariant model.rawLicenses == old(model.rawLicenses) + done.rows
      invariant model.created == old(model.created) + done.created
      invariant model.logs == old(model.logs)
    {
      failure := EmitOne(model, res, deps[i], ctx);
      assert coords[i] == Resolve(res, deps[i]);
      if failure.Some? {
        EmissionFailStep(coords, deps, ctx, base, i);
        return;
      }
      EmissionExtends(coords, deps, ctx, i, old(model.components), old(model.rawLicenses));
      done := Emission(coords[..i + 1], deps[..i + 1], ctx, base);
      i := i + 1;
    }
    assert deps[..|deps|] == deps && coords[..|deps|] == coords;
    failure := None;
  }

  /* ---------- one whole read ---------- */

  /** What one `readInventory` call adds to the model, and how it ends. */
  datatype ReadEffect = ReadEffect(logs: seq<LogEntry>, emitted: Emitted, outcome: Outcome)

  /**
   * One `readInventory` call on the decoded input (`Failure` is an I/O or decode error), the
   * first new component getting position `base`.
   */
  function Read(res: Resolution, ctx: Context, input: Result<seq<DepRecord>, string>, base: nat): (eff: ReadEffect)
    ensures |eff.logs| <= 1
    ensures eff.logs == [] ==> eff.emitted == Emitted([], [], 0, None) && eff.outcome.Raised?
    ensures eff.outcome.Completed? <==> |eff.logs| == 1 && eff.emitted.failure.None?
    ensures eff.outcome.Completed? ==> eff.emitted.created == |eff.emitted.components|
  {
    match input
    case Failure(cause) =>
      ReadEffect([], Emitted([], [], 0, None), Raised(ReadError(READ_ERROR_PREFIX + ctx.sourceUrl + "'", cause)))
    case Success(records) =>
      if !AllLicensesPresent(records) then ReadEffect([], Emitted([], [], 0, None), Raised(NullLicenseList))
      else
        var deps := Dependencies(records);
        var e := Emission(Resolutions(res, deps), deps, ctx, base);
        ReadEffect([LogEntry(ctx.sourceUrl, ctx.application, |records|, LicenseTotal(deps))], e,
                   if e.failure.None? then Completed else Raised(e.failure.value))
  }

  /**
   * A read or decode failure, and a record without a `licenses` list, end the call before
   * anything is logged or created; the read error names the source.
   */
  lemma FailedDecodeEmitsNothing(res: Resolution, ctx: Context, input: Result<seq<DepRecord>, string>, base: nat)
    requires input.Failure? || !AllLicensesPresent(input.value)
    ensures var e := Read(res, ctx, input, base);
      e.outcome.Raised? && e.logs == [] && e.emitted.components == [] && e.emitted.rows == [] &&
      e.emitted.created == 0
    ensures input.Failure? ==>
      Read(res, ctx, input, base).outcome == Raised(ReadError(READ_ERROR_PREFIX + ctx.sourceUrl + "'", input.error))
    ensures input.Success? ==> Read(res, ctx, input, base).outcome == Raised(NullLicenseList)
  {
  }

  /**
   * Once decoding succeeds, exactly one statistics entry is logged, before any coordinate is
   * looked at: it counts every record and every listed license (fallback rows excluded).
   */
  lemma DecodedReadLogsCounts(res: Resolution, ctx: Context, records: seq<DepRecord>, base: nat)
    requires AllLicensesPresent(records)
    ensures Read(res, ctx, Success(records), base).logs ==
      [LogEntry(ctx.sourceUrl, ctx.application, |records|, LicenseTotal(Dependencies(records)))]
    ensures Read(res, ctx, Success(records), base).outcome.Completed? <==>
      forall i :: 0 <= i < |records| ==> Resolve(res, Dependencies(records)[i]).Success?
  {
    var deps := Dependencies(records);
    EmissionFailsIff(Resolutions(res, deps), deps, ctx, base);
  }

  /**
   * A completed read emits one license row per listed license plus one fallback row per record
   * without licenses, so the logged license count leaves the fallback rows out.
   */
  lemma CompletedReadRowCount(res: Resolution, ctx: Context, records: seq<DepRecord>, base: nat)
    requires AllLicensesPresent(records)
    requires Read(res, ctx, Success(records), base).outcome.Completed?
    ensures var e := Read(res, ctx, Success(records), base);
      |e.emitted.components| == e.logs[0].components == |records| &&
      |e.emitted.rows| == e.logs[0].licenses + FallbackCount(Dependencies(records))
  {
    var deps := Dependencies(records);
    EmissionFailsIff(Resolutions(res, deps), deps, ctx, base);
    EmissionComplete(Resolutions(res, deps), deps, ctx, base);
    RowsOfAllCount(deps, base, ctx.sourceUrl);
  }

  /** The body of `readInventory` after the reader-specific preamble. */
  method ReadInventoryWith(model: InventoryModel, res: Resolution, ctx: Context, input: Result<seq<DepRecord>, string>)
    returns (outcome: Outcome)
    requires model.Valid()
    modifies model
    ensures model.Valid()
    ensures var e := Read(res, ctx, input, old(|model.components|));
      outcome == e.outcome &&
      model.logs == old(model.logs) + e.logs &&
      model.components == old(model.components) + e.emitted.components &&
      model.rawLicenses == old(model.rawLicenses) + e.emitted.rows &&
      model.created == old(model.created) + e.emitted.created
  {
    if input.Failure? {
      return Raised(ReadError(READ_ERROR_PREFIX + ctx.sourceUrl + "'", input.error));
    }
    var decoded := DecodeRecords(input.value);
    if decoded.Failure? {
      return Raised(decoded.error);
    }
    var d := decoded.value;
    model.DoLogging(ctx.sourceUrl, ctx.application, d.components, d.licenses);
    var failure := EmitComponents(model, res, d.deps, ctx);
    outcome := if failure.None? then Completed else Raised(failure.value);
  }
}
