/** The catalog sync of apps/core/prisma/sync-ai-providers.ts: ordered upserts, then
    conditional bulk updates, over the table of AI models. */
module CatalogSync {
  import opened Options

  datatype Tier = Tier1 | Tier2 | Tier3

  datatype Estimate = Estimate(joulesPerToken: real, gramsPerToken: real)

  /** A model row is found by its provider's name and its model id. */
  datatype Key = Key(provider: string, modelId: string)

  datatype Row = Row(
    name: string, description: string, maxTokens: int, supportsTools: bool, supportsImages: bool,
    supportsStreaming: bool, isActive: bool, tier: Option<Tier>, estimate: Option<Estimate>,
    pricing: Option<(real, real)>)

  type Table = map<Key, Row>

  // The catalog, apps/core/prisma/ai-model-catalog.ts.

  datatype Model = Model(
    modelId: string, name: string, description: string, maxTokens: int, supportsTools: bool, supportsImages: bool)

  datatype TierRow = TierRow(provider: string, modelId: string, tier: Tier, estimate: Estimate)

  datatype Untiered = Untiered(modelId: string, estimate: Estimate)

  datatype Hosted = Hosted(modelId: string, name: string, description: string, maxTokens: int, pricing: (real, real))

  datatype Catalog = Catalog(
    vllm: seq<Model>, tiers: seq<TierRow>, untiered: seq<Untiered>, retired: set<string>, direct: set<string>,
    openai: seq<Hosted>, google: seq<Hosted>)

  // Statements.

  datatype Change =
    | Activate
    | Refresh(model: Model)
    | RefreshOpenCode
    | Assign(tier: Tier, estimate: Estimate)
    | ClearTier
    | Retire
    | SetEstimate(estimate: Estimate)

  function Changed(c: Change, r: Row): Row {
    match c
    case Activate => r.(isActive := true)
    case Refresh(m) =>
      r.(name := m.name, description := m.description, isActive := true, maxTokens := m.maxTokens,
         supportsTools := m.supportsTools, supportsImages := m.supportsImages)
    case RefreshOpenCode =>
      r.(name := DEEPSEEK.name, description := DEEPSEEK.description, maxTokens := DEEPSEEK.maxTokens,
         isActive := true, supportsImages := false, supportsTools := false, supportsStreaming := true)
    case Assign(tier, estimate) => r.(tier := Some(tier), estimate := Some(estimate))
    case ClearTier => r.(tier := None)
    case Retire => r.(tier := None, isActive := false)
    case SetEstimate(estimate) => r.(estimate := Some(estimate))
  }

  /** `Update` is `updateMany`: the rows of a provider, narrowed to some ids when
      there are any, and to those that hold a tier when asked. */
  datatype Statement =
    | Upsert(key: Key, create: Row, change: Change)
    | Update(provider: string, ids: Option<set<string>>, onlyTiered: bool, change: Change)

  predicate Selects(s: Statement, key: Key, r: Row)
    requires s.Update?
  {
    key.provider == s.provider && (s.ids.Some? ==> key.modelId in s.ids.value) && (s.onlyTiered ==> r.tier.Some?)
  }

  function Execute(s: Statement, t: Table): Table {
    match s
    case Upsert(key, create, change) => t[key := if key in t then Changed(change, t[key]) else create]
    case Update(_, _, _, change) => map key | key in t :: if Selects(s, key, t[key]) then Changed(change, t[key]) else t[key]
  }

  function ExecuteAll(ss: seq<Statement>, t: Table): Table {
    if ss == [] then t else Execute(ss[|ss| - 1], ExecuteAll(ss[..|ss| - 1], t))
  }

  function CreatedModel(m: Model): Row {
    Row(m.name, m.description, m.maxTokens, m.supportsTools, false, true, true, None, None, None)
  }

  function CreatedHosted(m: Hosted): Row {
    Row(m.name, m.description, m.maxTokens, true, true, true, true, None, None, Some(m.pricing))
  }

  const DEEPSEEK := Row("DeepSeek V4 Flash (OpenCode Go)", "OpenCode Go subscription model", 32768,
                        false, false, true, true, None, None, None)

  function HostedUpserts(provider: string, ms: seq<Hosted>): seq<Statement> {
    seq(|ms|, i requires 0 <= i < |ms| => Upsert(Key(provider, ms[i].modelId), CreatedHosted(ms[i]), Activate))
  }

  function VllmUpserts(ms: seq<Model>): seq<Statement> {
    seq(|ms|, i requires 0 <= i < |ms| => Upsert(Key("vllm", ms[i].modelId), CreatedModel(ms[i]), Refresh(ms[i])))
  }

  /** A tier row of an unknown provider selects nothing. */
  function TierUpdates(ts: seq<TierRow>): seq<Statement> {
    seq(|ts|, i requires 0 <= i < |ts| =>
      Update(ts[i].provider, Some({ts[i].modelId}), false, Assign(ts[i].tier, ts[i].estimate)))
  }

  function EstimateUpdates(us: seq<Untiered>): seq<Statement> {
    seq(|us|, i requires 0 <= i < |us| => Update("vllm", Some({us[i].modelId}), false, SetEstimate(us[i].estimate)))
  }

  function CleanUp(cat: Catalog): seq<Statement> {
    [Update("google", None, true, ClearTier), Update("vllm", Some(cat.retired), true, Retire),
     Update("vllm", Some(cat.direct), true, ClearTier)]
  }

  /** `applyRoutingTierAssignments`, the same in apps/core/prisma/seed.ts. */
  function TierScript(cat: Catalog): seq<Statement> {
    TierUpdates(cat.tiers) + CleanUp(cat) + EstimateUpdates(cat.untiered)
  }

  function UpsertScript(cat: Catalog): seq<Statement> {
    HostedUpserts("openai", cat.openai) + HostedUpserts("google", cat.google) + VllmUpserts(cat.vllm)
    + [Upsert(Key("opencode", "deepseek-v4-flash"), DEEPSEEK, RefreshOpenCode)]
  }

  function Script(cat: Catalog): seq<Statement> {
    UpsertScript(cat) + TierScript(cat)
  }

  function Synced(cat: Catalog, t: Table): Table {
    ExecuteAll(Script(cat), t)
  }

  lemma {:induction false} ExecuteConcat(a: seq<Statement>, b: seq<Statement>, t: Table)
    ensures ExecuteAll(a + b, t) == ExecuteAll(b, ExecuteAll(a, t))
    decreases |b|
  {
    if b == [] { assert a + b == a; }
    else {
      var last := |b| - 1;
      assert (a + b)[..|a| + last] == a + b[..last];
      ExecuteConcat(a, b[..last], t);
    }
  }

  /** The database, as the script's awaited calls see it: a provider is known once
      its row exists, and rows only ever belong to known providers. */
  class Database {
    var providers: set<string>
    var models: Table

    ghost predicate Valid()
      reads this
    {
      forall key :: key in models ==> key.provider in providers
    }

    constructor ()
      ensures Valid() && providers == {} && models == map[]
    {
      providers, models := {}, map[];
    }

    method UpsertModel(key: Key, create: Row, change: Change)
      modifies this`models
      ensures models == Execute(Upsert(key, create, change), old(models))
    {
      models := models[key := if key in models then Changed(change, models[key]) else create];
    }

    method UpdateMany(provider: string, ids: Option<set<string>>, onlyTiered: bool, change: Change)
      modifies this`models
      ensures models == Execute(Update(provider, ids, onlyTiered, change), old(models))
      ensures models.Keys == old(models).Keys
    {
      var s := Update(provider, ids, onlyTiered, change);
      models := map key | key in models :: if Selects(s, key, models[key]) then Changed(change, models[key]) else models[key];
    }

    method ApplyRoutingTierAssignments(cat: Catalog)
      requires Valid() && {"google", "vllm"} <= providers
      modifies this`models
      ensures models == ExecuteAll(TierScript(cat), old(models)) && Valid()
    {
      ghost var before := models;
      for i := 0 to |cat.tiers|
        invariant models == ExecuteAll(TierUpdates(cat.tiers)[..i], before) && models.Keys == before.Keys
      {
        var row := cat.tiers[i];
        assert TierUpdates(cat.tiers)[..i + 1][..i] == TierUpdates(cat.tiers)[..i];
        if row.provider in providers {
          UpdateMany(row.provider, Some({row.modelId}), false, Assign(row.tier, row.estimate));
        } else {
          assert Execute(TierUpdates(cat.tiers)[i], models) == models;
        }
      }
      assert TierUpdates(cat.tiers)[..|cat.tiers|] == TierUpdates(cat.tiers);
      ghost var tiered := models;
      UpdateMany("google", None, true, ClearTier);
      UpdateMany("vllm", Some(cat.retired), true, Retire);
      UpdateMany("vllm", Some(cat.direct), true, ClearTier);
      CleanUpSteps(cat, tiered);
      ghost var cleaned := models;
      for i := 0 to |cat.untiered|
        invariant models == ExecuteAll(EstimateUpdates(cat.untiered)[..i], cleaned) && models.Keys == before.Keys
      {
        assert EstimateUpdates(cat.untiered)[..i + 1][..i] == EstimateUpdates(cat.untiered)[..i];
        UpdateMany("vllm", Some({cat.untiered[i].modelId}), false, SetEstimate(cat.untiered[i].estimate));
      }
      assert EstimateUpdates(cat.untiered)[..|cat.untiered|] == EstimateUpdates(cat.untiered);
      ExecuteConcat(TierUpdates(cat.tiers) + CleanUp(cat), EstimateUpdates(cat.untiered), before);
      ExecuteConcat(TierUpdates(cat.tiers), CleanUp(cat), before);
    }

    method UpsertHosted(provider: string, ms: seq<Hosted>)
      requires Valid() && provider in providers
      modifies this`models
      ensures models == ExecuteAll(HostedUpserts(provider, ms), old(models)) && Valid()
    {
      ghost var before := models;
      for i := 0 to |ms|
        invariant models == ExecuteAll(HostedUpserts(provider, ms)[..i], before) && Valid()
      {
        assert HostedUpserts(provider, ms)[..i + 1][..i] == HostedUpserts(provider, ms)[..i];
        UpsertModel(Key(provider, ms[i].modelId), CreatedHosted(ms[i]), Activate);
      }
      assert HostedUpserts(provider, ms)[..|ms|] == HostedUpserts(provider, ms);
    }

    /** `main` of the sync. */
    method Sync(cat: Catalog)
      requires Valid()
      modifies this
      ensures models == Synced(cat, old(models)) && Valid()
      ensures providers == old(providers) + {"openai", "google", "ollama", "vllm", "opencode"}
    {
      ghost var before := models;
      providers := providers + {"openai", "google", "ollama", "vllm", "opencode"};
      UpsertHosted("openai", cat.openai);
      UpsertHosted("google", cat.google);
      ghost var hosted := models;
      for i := 0 to |cat.vllm|
        invariant models == ExecuteAll(VllmUpserts(cat.vllm)[..i], hosted) && Valid()
        invariant providers == old(providers) + {"openai", "google", "ollama", "vllm", "opencode"}
      {
        assert VllmUpserts(cat.vllm)[..i + 1][..i] == VllmUpserts(cat.vllm)[..i];
        UpsertModel(Key("vllm", cat.vllm[i].modelId), CreatedModel(cat.vllm[i]), Refresh(cat.vllm[i]));
      }
      assert VllmUpserts(cat.vllm)[..|cat.vllm|] == VllmUpserts(cat.vllm);
      UpsertModel(Key("opencode", "deepseek-v4-flash"), DEEPSEEK, RefreshOpenCode);
      UpsertSteps(cat, before);
      ApplyRoutingTierAssignments(cat);
      ExecuteConcat(UpsertScript(cat), TierScript(cat), before);
    }
  }

  lemma CleanUpSteps(cat: Catalog, t: Table)
    ensures var ss := CleanUp(cat);
            ExecuteAll(ss, t) == Execute(ss[2], Execute(ss[1], Execute(ss[0], t)))
  {
    var ss := CleanUp(cat);
    assert ss[..2] == [ss[0], ss[1]] && [ss[0], ss[1]][..1] == [ss[0]] && [ss[0]][..0] == [];
    assert ExecuteAll([ss[0]], t) == Execute(ss[0], t);
    assert ExecuteAll([ss[0], ss[1]], t) == Execute(ss[1], Execute(ss[0], t));
  }

  lemma UpsertSteps(cat: Catalog, t: Table)
    ensures var deepseek := Upsert(Key("opencode", "deepseek-v4-flash"), DEEPSEEK, RefreshOpenCode);
            var hosted := ExecuteAll(HostedUpserts("google", cat.google), ExecuteAll(HostedUpserts("openai", cat.openai), t));
            ExecuteAll(UpsertScript(cat), t) == Execute(deepseek, ExecuteAll(VllmUpserts(cat.vllm), hosted))
  {
    var (a, b, c) := (HostedUpserts("openai", cat.openai), HostedUpserts("google", cat.google), VllmUpserts(cat.vllm));
    var d := [Upsert(Key("opencode", "deepseek-v4-flash"), DEEPSEEK, RefreshOpenCode)];
    ExecuteConcat(a + b + c, d, t);
    ExecuteConcat(a + b, c, t);
    ExecuteConcat(a, b, t);
    assert d[..0] == [];
  }

  // Row by row.

  function At(t: Table, key: Key): Option<Row> {
    if key in t then Some(t[key]) else None
  }

  function RowStep(s: Statement, key: Key, r: Option<Row>): Option<Row> {
    if s.Upsert? then
      if key == s.key then Some(if r.None? then s.create else Changed(s.change, r.value)) else r
    else if r.Some? && Selects(s, key, r.value) then Some(Changed(s.change, r.value))
    else r
  }

  function RowAll(ss: seq<Statement>, key: Key, r: Option<Row>): Option<Row> {
    if ss == [] then r else RowStep(ss[|ss| - 1], key, RowAll(ss[..|ss| - 1], key, r))
  }

  /** Executing statements treats every row on its own. */
  lemma {:induction false} ExecutesRowByRow(ss: seq<Statement>, t: Table, key: Key)
    ensures At(ExecuteAll(ss, t), key) == RowAll(ss, key, At(t, key))
  {
    if ss != [] { ExecutesRowByRow(ss[..|ss| - 1], t, key); }
  }

  lemma {:induction false} RowConcat(a: seq<Statement>, b: seq<Statement>, key: Key, r: Option<Row>)
    ensures RowAll(a + b, key, r) == RowAll(b, key, RowAll(a, key, r))
    decreases |b|
  {
    if b == [] { assert a + b == a; }
    else {
      var last := |b| - 1;
      assert (a + b)[..|a| + last] == a + b[..last];
      RowConcat(a, b[..last], key, r);
    }
  }

  /** The statement can concern the row, whatever the row holds. */
  predicate Names(s: Statement, key: Key) {
    if s.Upsert? then s.key == key else s.provider == key.provider && (s.ids.Some? ==> key.modelId in s.ids.value)
  }

  lemma {:induction false} NoneNames(ss: seq<Statement>, key: Key, r: Option<Row>)
    requires forall i :: 0 <= i < |ss| ==> !Names(ss[i], key)
    ensures RowAll(ss, key, r) == r
  {
    if ss != [] { NoneNames(ss[..|ss| - 1], key, r); }
  }

  lemma {:induction false} OneNames(ss: seq<Statement>, key: Key, r: Option<Row>, i: nat)
    requires i < |ss| && forall j :: 0 <= j < |ss| && j != i ==> !Names(ss[j], key)
    ensures RowAll(ss, key, r) == RowStep(ss[i], key, r)
  {
    var last := |ss| - 1;
    if i == last { NoneNames(ss[..last], key, r); }
    else { OneNames(ss[..last], key, r, i); }
  }

  /** No id appears twice in a list of the catalog. */
  ghost predicate DistinctIds(cat: Catalog) {
    && (forall i, j :: 0 <= i < j < |cat.vllm| ==> cat.vllm[i].modelId != cat.vllm[j].modelId)
    && (forall i, j :: 0 <= i < j < |cat.openai| ==> cat.openai[i].modelId != cat.openai[j].modelId)
    && (forall i, j :: 0 <= i < j < |cat.google| ==> cat.google[i].modelId != cat.google[j].modelId)
    && (forall i, j :: 0 <= i < j < |cat.untiered| ==> cat.untiered[i].modelId != cat.untiered[j].modelId)
    && (forall i, j :: 0 <= i < j < |cat.tiers| ==>
          cat.tiers[i].provider != cat.tiers[j].provider || cat.tiers[i].modelId != cat.tiers[j].modelId)
  }

  ghost predicate ListsModel(ms: seq<Model>, id: string) {
    exists i :: 0 <= i < |ms| && ms[i].modelId == id
  }

  ghost predicate ListsHosted(ms: seq<Hosted>, id: string) {
    exists i :: 0 <= i < |ms| && ms[i].modelId == id
  }

  ghost predicate AssignsTier(ts: seq<TierRow>, key: Key) {
    exists i :: 0 <= i < |ts| && ts[i].provider == key.provider && ts[i].modelId == key.modelId
  }

  ghost predicate EstimatesModel(us: seq<Untiered>, id: string) {
    exists i :: 0 <= i < |us| && us[i].modelId == id
  }

  /** What the one upsert that names a row makes of it. */
  ghost function HostedRow(ms: seq<Hosted>, id: string, r: Option<Row>): Option<Row>
    requires ListsHosted(ms, id)
  {
    var i :| 0 <= i < |ms| && ms[i].modelId == id;
    Some(if r.None? then CreatedHosted(ms[i]) else r.value.(isActive := true))
  }

  ghost function ModelRow(ms: seq<Model>, id: string, r: Option<Row>): Option<Row>
    requires ListsModel(ms, id)
  {
    var i :| 0 <= i < |ms| && ms[i].modelId == id;
    Some(if r.None? then CreatedModel(ms[i]) else Changed(Refresh(ms[i]), r.value))
  }

  /** The upserts, on one row. */
  ghost function UpsertedRow(cat: Catalog, key: Key, r: Option<Row>): Option<Row> {
    if key.provider == "openai" && ListsHosted(cat.openai, key.modelId) then
      HostedRow(cat.openai, key.modelId, r)
    else if key.provider == "google" && ListsHosted(cat.google, key.modelId) then
      HostedRow(cat.google, key.modelId, r)
    else if key.provider == "vllm" && ListsModel(cat.vllm, key.modelId) then
      ModelRow(cat.vllm, key.modelId, r)
    else if key == Key("opencode", "deepseek-v4-flash") then
      Some(if r.None? then DEEPSEEK else Changed(RefreshOpenCode, r.value))
    else r
  }

  /** The tier and estimate the catalog assigns to a row, if any. */
  ghost function AssignmentFor(cat: Catalog, key: Key): Option<(Tier, Estimate)> {
    if !AssignsTier(cat.tiers, key) then None
    else
      var i :| 0 <= i < |cat.tiers| && cat.tiers[i].provider == key.provider && cat.tiers[i].modelId == key.modelId;
      Some((cat.tiers[i].tier, cat.tiers[i].estimate))
  }

  function Assigned(a: Option<(Tier, Estimate)>, r: Row): Row {
    if a.None? then r else Changed(Assign(a.value.0, a.value.1), r)
  }

  /** Clearing and retiring, given which of the three updates names the row. */
  function Cleared(clear: bool, retire: bool, clearDirect: bool, r: Row): Row {
    var b := if clear && r.tier.Some? then Changed(ClearTier, r) else r;
    var c := if retire && b.tier.Some? then Changed(Retire, b) else b;
    if clearDirect && c.tier.Some? then Changed(ClearTier, c) else c
  }

  /** The estimate the catalog gives an untiered model, if any. */
  ghost function EstimateFor(cat: Catalog, key: Key): Option<Estimate> {
    if key.provider == "vllm" && EstimatesModel(cat.untiered, key.modelId) then
      var i :| 0 <= i < |cat.untiered| && cat.untiered[i].modelId == key.modelId;
      Some(cat.untiered[i].estimate)
    else None
  }

  function Estimated(e: Option<Estimate>, r: Row): Row {
    if e.None? then r else Changed(SetEstimate(e.value), r)
  }

  function Steps(
    a: Option<(Tier, Estimate)>, e: Option<Estimate>, clear: bool, retire: bool, clearDirect: bool, r: Row): Row
  {
    Estimated(e, Cleared(clear, retire, clearDirect, Assigned(a, r)))
  }

  /** The tier assignments and what follows them, on one row. */
  ghost function TieredRow(cat: Catalog, key: Key, r: Row): Row {
    Steps(AssignmentFor(cat, key), EstimateFor(cat, key), key.provider == "google",
          key.provider == "vllm" && key.modelId in cat.retired, key.provider == "vllm" && key.modelId in cat.direct, r)
  }

  /** The whole sync, on one row. */
  ghost function SyncedRow(cat: Catalog, key: Key, r: Option<Row>): Option<Row> {
    var u := UpsertedRow(cat, key, r);
    if u.None? then None else Some(TieredRow(cat, key, u.value))
  }

  lemma ProvidersDiffer()
    ensures "openai" != "google" && "openai" != "vllm" && "openai" != "opencode"
    ensures "google" != "vllm" && "google" != "opencode" && "vllm" != "opencode"
  {
    assert "openai"[0] != "google"[0] && |"vllm"| == 4 && |"opencode"| == 8 && |"openai"| == 6 && |"google"| == 6;
  }

  lemma HostedSegment(provider: string, ms: seq<Hosted>, key: Key, r: Option<Row>)
    requires forall i, j :: 0 <= i < j < |ms| ==> ms[i].modelId != ms[j].modelId
    ensures RowAll(HostedUpserts(provider, ms), key, r)
         == if key.provider == provider && ListsHosted(ms, key.modelId) then HostedRow(ms, key.modelId, r) else r
  {
    if key.provider == provider && ListsHosted(ms, key.modelId) {
      var i :| 0 <= i < |ms| && ms[i].modelId == key.modelId;
      OneNames(HostedUpserts(provider, ms), key, r, i);
    } else {
      NoneNames(HostedUpserts(provider, ms), key, r);
    }
  }

  lemma VllmSegment(ms: seq<Model>, key: Key, r: Option<Row>)
    requires forall i, j :: 0 <= i < j < |ms| ==> ms[i].modelId != ms[j].modelId
    ensures RowAll(VllmUpserts(ms), key, r)
         == if key.provider == "vllm" && ListsModel(ms, key.modelId) then ModelRow(ms, key.modelId, r) else r
  {
    if key.provider == "vllm" && ListsModel(ms, key.modelId) {
      var i :| 0 <= i < |ms| && ms[i].modelId == key.modelId;
      OneNames(VllmUpserts(ms), key, r, i);
    } else {
      NoneNames(VllmUpserts(ms), key, r);
    }
  }

  lemma UpsertSegment(cat: Catalog, key: Key, r: Option<Row>)
    requires DistinctIds(cat)
    ensures RowAll(UpsertScript(cat), key, r) == UpsertedRow(cat, key, r)
  {
    var (a, b, c) := (HostedUpserts("openai", cat.openai), HostedUpserts("google", cat.google), VllmUpserts(cat.vllm));
    var d := [Upsert(Key("opencode", "deepseek-v4-flash"), DEEPSEEK, RefreshOpenCode)];
    hide HostedUpserts, VllmUpserts, HostedRow, ModelRow, ListsHosted, ListsModel;
    ProvidersDiffer();
    RowConcat(a + b + c, d, key, r);
    RowConcat(a + b, c, key, r);
    RowConcat(a, b, key, r);
    HostedSegment("openai", cat.openai, key, r);
    var r1 := RowAll(a, key, r);
    HostedSegment("google", cat.google, key, r1);
    var r2 := RowAll(b, key, r1);
    VllmSegment(cat.vllm, key, r2);
    var r3 := RowAll(c, key, r2);
    assert RowAll(d, key, r3) == RowStep(d[0], key, r3) by { assert d[..0] == []; }
  }

  lemma TierSegment(cat: Catalog, ts: seq<TierRow>, key: Key, r: Row)
    requires ts == cat.tiers && forall i, j :: 0 <= i < j < |ts| ==> ts[i].provider != ts[j].provider || ts[i].modelId != ts[j].modelId
    ensures RowAll(TierUpdates(ts), key, Some(r)) == Some(Assigned(AssignmentFor(cat, key), r))
  {
    if AssignsTier(ts, key) {
      var i :| 0 <= i < |ts| && ts[i].provider == key.provider && ts[i].modelId == key.modelId;
      OneNames(TierUpdates(ts), key, Some(r), i);
    } else {
      NoneNames(TierUpdates(ts), key, Some(r));
    }
  }

  lemma EstimateSegment(cat: Catalog, us: seq<Untiered>, key: Key, r: Row)
    requires us == cat.untiered && forall i, j :: 0 <= i < j < |us| ==> us[i].modelId != us[j].modelId
    ensures RowAll(EstimateUpdates(us), key, Some(r)) == Some(Estimated(EstimateFor(cat, key), r))
  {
    if key.provider == "vllm" && EstimatesModel(us, key.modelId) {
      var i :| 0 <= i < |us| && us[i].modelId == key.modelId;
      OneNames(EstimateUpdates(us), key, Some(r), i);
    } else {
      NoneNames(EstimateUpdates(us), key, Some(r));
    }
  }

  lemma CleanUpSegment(cat: Catalog, key: Key, r: Row)
    ensures RowAll(CleanUp(cat), key, Some(r)) 
         == Some(Cleared(key.provider == "google", key.provider == "vllm" && key.modelId in cat.retired,
                         key.provider == "vllm" && key.modelId in cat.direct, r))
  {
    var ss := CleanUp(cat);
    ProvidersDiffer();
    assert ss[..2] == [ss[0], ss[1]] && [ss[0], ss[1]][..1] == [ss[0]] && [ss[0]][..0] == [];
    var one := RowStep(ss[0], key, Some(r));
    assert RowAll([ss[0]], key, Some(r)) == one;
    assert RowAll([ss[0], ss[1]], key, Some(r)) == RowStep(ss[1], key, one);
  }

  lemma TierScriptSegment(cat: Catalog, key: Key, r: Row)
    requires DistinctIds(cat)
    ensures RowAll(TierScript(cat), key, Some(r)) == Some(TieredRow(cat, key, r))
  {
    hide CleanUp, TierUpdates, EstimateUpdates, AssignmentFor, EstimateFor, Assigned, Estimated, Cleared, RowAll;
    RowConcat(TierUpdates(cat.tiers) + CleanUp(cat), EstimateUpdates(cat.untiered), key, Some(r));
    RowConcat(TierUpdates(cat.tiers), CleanUp(cat), key, Some(r));
    TierSegment(cat, cat.tiers, key, r);
    var tiered := Assigned(AssignmentFor(cat, key), r);
    CleanUpSegment(cat, key, tiered);
    EstimateSegment(cat, cat.untiered, key,
      Cleared(key.provider == "google", key.provider == "vllm" && key.modelId in cat.retired,
              key.provider == "vllm" && key.modelId in cat.direct, tiered));
  }

  lemma TierScriptOnNothing(cat: Catalog, key: Key)
    ensures RowAll(TierScript(cat), key, None) == None
  {
    NothingUpdated(TierScript(cat), key);
  }

  lemma {:induction false} NothingUpdated(ss: seq<Statement>, key: Key)
    requires forall i :: 0 <= i < |ss| ==> ss[i].Update?
    ensures RowAll(ss, key, None) == None
  {
    if ss != [] { NothingUpdated(ss[..|ss| - 1], key); }
  }

  /** The script's statements, in order, do to each row what `SyncedRow` says. */
  lemma SyncsRowByRow(cat: Catalog, t: Table, key: Key)
    requires DistinctIds(cat)
    ensures At(Synced(cat, t), key) == SyncedRow(cat, key, At(t, key))
  {
    ExecutesRowByRow(Script(cat), t, key);
    RowConcat(UpsertScript(cat), TierScript(cat), key, At(t, key));
    UpsertSegment(cat, key, At(t, key));
    var u := UpsertedRow(cat, key, At(t, key));
    if u.Some? { TierScriptSegment(cat, key, u.value); } else { TierScriptOnNothing(cat, key); }
  }

  // Idempotence.

  ghost predicate IsIdempotent(cat: Catalog) {
    forall t: Table :: Synced(cat, Synced(cat, t)) == Synced(cat, t)
  }

  /** What makes a second sync redundant: a listed vLLM model is created as it would
      be refreshed, and is not also retired, unless a tier assignment for it makes
      every sync retire it again. */
  ghost predicate IsConsistent(cat: Catalog) {
    forall i | 0 <= i < |cat.vllm| ::
      && !cat.vllm[i].supportsImages
      && (cat.vllm[i].modelId in cat.retired ==> AssignsTier(cat.tiers, Key("vllm", cat.vllm[i].modelId)))
  }

  /** The rows agree but for the tier, the estimate and being active. */
  predicate AgreeButTier(r: Row, o: Row) {
    o == r.(tier := o.tier, estimate := o.estimate, isActive := o.isActive)
  }

  lemma TierScriptTouches(cat: Catalog, key: Key, u: Row)
    ensures AgreeButTier(u, TieredRow(cat, key, u))
    ensures TieredRow(cat, key, u).isActive ==> u.isActive
  {
    hide AssignmentFor, EstimateFor;
  }

  /** What the upserts make of a row they have made already. */
  lemma UpsertsAgain(cat: Catalog, key: Key, r: Option<Row>, o: Row)
    requires IsConsistent(cat) && UpsertedRow(cat, key, r).Some? && AgreeButTier(UpsertedRow(cat, key, r).value, o)
    ensures var (u, again) := (UpsertedRow(cat, key, r).value, UpsertedRow(cat, key, Some(o)));
            again == Some(o) || (again == Some(o.(isActive := true)) && u.isActive)
  {
    ProvidersDiffer();
    if key.provider == "vllm" && ListsModel(cat.vllm, key.modelId) {
      ModelAgain(cat, key.modelId, r, o);
    } else {
      hide ModelRow, IsConsistent;
    }
  }

  lemma ModelAgain(cat: Catalog, id: string, r: Option<Row>, o: Row)
    requires IsConsistent(cat) && ListsModel(cat.vllm, id) && AgreeButTier(ModelRow(cat.vllm, id, r).value, o)
    ensures ModelRow(cat.vllm, id, Some(o)) == Some(o.(isActive := true)) && ModelRow(cat.vllm, id, r).value.isActive
  {
  }

  lemma SecondUpsert(cat: Catalog, key: Key, r: Option<Row>)
    requires DistinctIds(cat) && IsConsistent(cat)
    ensures SyncedRow(cat, key, SyncedRow(cat, key, r)) == SyncedRow(cat, key, r)
  {
    var once := SyncedRow(cat, key, r);
    if once.Some? {
      var (u, again) := (UpsertedRow(cat, key, r).value, UpsertedRow(cat, key, once).value);
      TierScriptTouches(cat, key, u);
      UpsertsAgain(cat, key, r, once.value);
      if key.provider == "vllm" && key.modelId in cat.retired && !AssignsTier(cat.tiers, key) {
        RetiredIsUntouched(cat, key, once.value);
      }
      hide TieredRow, UpsertedRow, IsConsistent, DistinctIds;
      TieredAgain(cat, key, u, again);
    }
  }

  /** A retired model without a tier assignment is in no list that is upserted. */
  lemma RetiredIsUntouched(cat: Catalog, key: Key, o: Row)
    requires IsConsistent(cat) && key.provider == "vllm" && key.modelId in cat.retired && !AssignsTier(cat.tiers, key)
    ensures UpsertedRow(cat, key, Some(o)) == Some(o)
  {
    ProvidersDiffer();
    hide AssignsTier;
    assert key == Key("vllm", key.modelId);
  }

  lemma TieredAgain(cat: Catalog, key: Key, u: Row, again: Row)
    requires var once := TieredRow(cat, key, u); again == once || (again == once.(isActive := true) && u.isActive)
    requires key.provider == "vllm" && key.modelId in cat.retired && !AssignsTier(cat.tiers, key) ==>
               again == TieredRow(cat, key, u)
    ensures TieredRow(cat, key, again) == TieredRow(cat, key, u)
  {
    var (a, e) := (AssignmentFor(cat, key), EstimateFor(cat, key));
    assert AssignsTier(cat.tiers, key) <==> a.Some?;
    StepsAgain(a, e, key.provider == "google", key.provider == "vllm" && key.modelId in cat.retired,
               key.provider == "vllm" && key.modelId in cat.direct, u, again);
    hide AssignmentFor, EstimateFor, Steps;
  }

  lemma StepsAgain(
    a: Option<(Tier, Estimate)>, e: Option<Estimate>, clear: bool, retire: bool, clearDirect: bool, u: Row, again: Row)
    requires var once := Steps(a, e, clear, retire, clearDirect, u);
             again == once || (again == once.(isActive := true) && u.isActive)
    requires retire && a.None? ==> again == Steps(a, e, clear, retire, clearDirect, u)
    ensures Steps(a, e, clear, retire, clearDirect, again) == Steps(a, e, clear, retire, clearDirect, u)
  {
    StepsMake(a, e, clear, retire, clearDirect, u);
    StepsMake(a, e, clear, retire, clearDirect, again);
    hide Steps;
  }

  /** The tier script on one row, field by field. */
  lemma StepsMake(
    a: Option<(Tier, Estimate)>, e: Option<Estimate>, clear: bool, retire: bool, clearDirect: bool, r: Row)
    ensures var tier := if a.Some? then Some(a.value.0) else r.tier;
            Steps(a, e, clear, retire, clearDirect, r) ==
            r.(tier := if clear || retire || clearDirect then None else tier,
               estimate := if e.Some? then e else if a.Some? then Some(a.value.1) else r.estimate,
               isActive := r.isActive && !(retire && !clear && tier.Some?))
  {
  }

  /** A table that a second sync changes, when the catalog is not consistent. */
  lemma InconsistentCatalog(cat: Catalog, i: nat) returns (t: Table)
    requires DistinctIds(cat) && i < |cat.vllm|
    requires cat.vllm[i].supportsImages
             || (cat.vllm[i].modelId in cat.retired && !AssignsTier(cat.tiers, Key("vllm", cat.vllm[i].modelId)))
    ensures Synced(cat, Synced(cat, t)) != Synced(cat, t)
  {
    var (m, key) := (cat.vllm[i], Key("vllm", cat.vllm[i].modelId));
    ProvidersDiffer();
    assert ListsModel(cat.vllm, key.modelId);
    t := if m.supportsImages then map[] else map[key := CreatedModel(m).(tier := Some(Tier1))];
    SyncsRowByRow(cat, t, key);
    SyncsRowByRow(cat, Synced(cat, t), key);
    OnlyModel(cat, i);
    hide UpsertedRow, Synced, DistinctIds;
    var once := TieredRow(cat, key, UpsertedRow(cat, key, At(t, key)).value);
    TierScriptTouches(cat, key, UpsertedRow(cat, key, At(t, key)).value);
    if !m.supportsImages { RetiredIsDisabled(cat, key, UpsertedRow(cat, key, At(t, key)).value); }
    TierScriptTouches(cat, key, UpsertedRow(cat, key, Some(once)).value);
    if !m.supportsImages { UntieredStays(cat, key, UpsertedRow(cat, key, Some(once)).value); }
  }

  /** A listed model is upserted as the one model of its id. */
  lemma OnlyModel(cat: Catalog, i: nat)
    requires DistinctIds(cat) && i < |cat.vllm|
    ensures forall r :: UpsertedRow(cat, Key("vllm", cat.vllm[i].modelId), r)
                    == Some(if r.None? then CreatedModel(cat.vllm[i]) else Changed(Refresh(cat.vllm[i]), r.value))
  {
    ProvidersDiffer();
    assert ListsModel(cat.vllm, cat.vllm[i].modelId);
  }

  lemma UntieredStays(cat: Catalog, key: Key, u: Row)
    requires key.provider == "vllm" && u.isActive && u.tier.None? && !AssignsTier(cat.tiers, key)
    ensures TieredRow(cat, key, u).isActive
  {
    StepsMake(AssignmentFor(cat, key), EstimateFor(cat, key), key.provider == "google",
              key.provider == "vllm" && key.modelId in cat.retired, key.provider == "vllm" && key.modelId in cat.direct, u);
    hide Steps, EstimateFor;
  }

  /** The sync is idempotent on every table exactly when the catalog is consistent. */
  lemma SyncIdempotentExactly(cat: Catalog)
    requires DistinctIds(cat)
    ensures IsIdempotent(cat) <==> IsConsistent(cat)
  {
    if IsConsistent(cat) {
      forall t: Table ensures Synced(cat, Synced(cat, t)) == Synced(cat, t) {
        forall key ensures At(Synced(cat, Synced(cat, t)), key) == At(Synced(cat, t), key) {
          SyncsRowByRow(cat, t, key);
          SyncsRowByRow(cat, Synced(cat, t), key);
          SecondUpsert(cat, key, At(t, key));
        }
        SameTable(Synced(cat, Synced(cat, t)), Synced(cat, t));
      }
    } else {
      var i :| 0 <= i < |cat.vllm| && (cat.vllm[i].supportsImages
        || (cat.vllm[i].modelId in cat.retired && !AssignsTier(cat.tiers, Key("vllm", cat.vllm[i].modelId))));
      var t := InconsistentCatalog(cat, i);
    }
  }

  lemma SameTable(a: Table, b: Table)
    requires forall key :: At(a, key) == At(b, key)
    ensures a == b
  {
    forall key ensures key in a <==> key in b { assert At(a, key) == At(b, key); }
    forall key | key in a ensures a[key] == b[key] { assert At(a, key) == At(b, key); }
  }

  // Runs that mix syncs and edits in the admin pages.

  datatype Event = SyncRun | Edit(key: Key, row: Option<Row>)

  function AfterEvent(cat: Catalog, t: Table, e: Event): Table {
    match e
    case SyncRun => Synced(cat, t)
    case Edit(key, Some(row)) => t[key := row]
    case Edit(key, None) => t - {key}
  }

  function AfterRun(cat: Catalog, t: Table, run: seq<Event>): Table {
    if run == [] then t else AfterEvent(cat, AfterRun(cat, t, run[..|run| - 1]), run[|run| - 1])
  }

  ghost predicate EnabledWithoutTier(r: Option<Row>) {
    r.Some? && r.value.isActive && r.value.tier.None?
  }

  /** A retired row that an administrator enabled again stays enabled, through any
      number of syncs and other edits, until an edit gives it a tier, disables it or
      deletes it. */
  lemma {:induction false} ReenabledStays(cat: Catalog, t: Table, run: seq<Event>, id: string)
    requires DistinctIds(cat) && id in cat.retired && !AssignsTier(cat.tiers, Key("vllm", id))
    requires EnabledWithoutTier(At(t, Key("vllm", id)))
    requires forall e :: e in run && e.Edit? && e.key == Key("vllm", id) ==> EnabledWithoutTier(e.row)
    ensures EnabledWithoutTier(At(AfterRun(cat, t, run), Key("vllm", id)))
  {
    if run != [] {
      var (before, e) := (run[..|run| - 1], run[|run| - 1]);
      ReenabledStays(cat, t, before, id);
      assert e in run;
      ProvidersDiffer();
      if e.SyncRun? { SyncsRowByRow(cat, AfterRun(cat, t, before), Key("vllm", id)); }
    }
  }

  /** And a sync does disable a retired row that holds a tier. */
  lemma TieredRetiredIsDisabled(cat: Catalog, t: Table, id: string)
    requires DistinctIds(cat) && id in cat.retired
    requires At(t, Key("vllm", id)).Some? && At(t, Key("vllm", id)).value.tier.Some?
    ensures var r := At(Synced(cat, t), Key("vllm", id)); r.Some? && !r.value.isActive && r.value.tier.None?
  {
    var key := Key("vllm", id);
    SyncsRowByRow(cat, t, key);
    UpsertKeepsTier(cat, key, At(t, key).value);
    RetiredIsDisabled(cat, key, UpsertedRow(cat, key, At(t, key)).value);
    hide UpsertedRow, TieredRow, Synced, DistinctIds;
  }

  lemma UpsertKeepsTier(cat: Catalog, key: Key, r: Row)
    ensures UpsertedRow(cat, key, Some(r)).Some? && UpsertedRow(cat, key, Some(r)).value.tier == r.tier
  {
    hide ListsHosted, ListsModel;
  }

  lemma RetiredIsDisabled(cat: Catalog, key: Key, u: Row)
    requires key.provider == "vllm" && key.modelId in cat.retired && u.tier.Some?
    ensures !TieredRow(cat, key, u).isActive && TieredRow(cat, key, u).tier.None?
  {
    ProvidersDiffer();
    StepsMake(AssignmentFor(cat, key), EstimateFor(cat, key), key.provider == "google",
              key.provider == "vllm" && key.modelId in cat.retired, key.provider == "vllm" && key.modelId in cat.direct, u);
    hide Steps, AssignmentFor, EstimateFor;
  }

  /** In none of the catalog's lists. */
  ghost predicate IsUnlisted(cat: Catalog, id: string) {
    && !ListsModel(cat.vllm, id) && !AssignsTier(cat.tiers, Key("vllm", id)) && !EstimatesModel(cat.untiered, id)
    && id !in cat.retired && id !in cat.direct
  }

  /** What the edits alone make of a row. */
  function EditedRow(r: Option<Row>, run: seq<Event>, key: Key): Option<Row> {
    if run == [] then r
    else
      var e := run[|run| - 1];
      if e.Edit? && e.key == key then e.row else EditedRow(r, run[..|run| - 1], key)
  }

  /** Over any run, an unlisted vLLM row is just what the edits made it: no sync
      ever changes it, nor brings it back. */
  lemma {:induction false} UnlistedIsLeftAlone(cat: Catalog, t: Table, run: seq<Event>, id: string)
    requires DistinctIds(cat) && IsUnlisted(cat, id)
    ensures At(AfterRun(cat, t, run), Key("vllm", id)) == EditedRow(At(t, Key("vllm", id)), run, Key("vllm", id))
  {
    if run != [] {
      var (before, e) := (run[..|run| - 1], run[|run| - 1]);
      UnlistedIsLeftAlone(cat, t, before, id);
      ProvidersDiffer();
      if e.SyncRun? { SyncsRowByRow(cat, AfterRun(cat, t, before), Key("vllm", id)); }
    }
  }

  // The catalog in the repository.

  const QWEN2 := Model("qwen3.5-2b-instruct", "Qwen 3.5 2B (vLLM)", "House chat — tier 1, hybrid RAG", 8192, false, false)
  const QWEN9 := Model("qwen3.5-9b-instruct", "Qwen 3.5 9B (vLLM)", "Large tier — tools via Hermes parser", 32768, true, false)
  const QWEN27 := Model("qwen3.8-27b-instruct", "Qwen 3.8 27B (vLLM)",
                        "Assist Auto — cmps02 GPU 1; excluded from Auto routing", 65536, true, false)

  /** The shared catalog and the hosted models of the sync; the ids that are
      addressed directly come from elsewhere and are left open. */
  function SharedCatalog(direct: set<string>): Catalog {
    Catalog(
      [QWEN2, QWEN9, QWEN27],
      [TierRow("vllm", QWEN2.modelId, Tier1, Estimate(0.023, 0.00000051)),
       TierRow("vllm", QWEN9.modelId, Tier3, Estimate(0.103, 0.00000229))],
      [Untiered(QWEN27.modelId, Estimate(0.309, 0.00000687))],
      {"qwen2.5-7b-instruct", "qwen3.5-4b-instruct", "qwen2.5-32b-instruct"},
      direct,
      [Hosted("gpt-4.1", "GPT-4.1", "Advanced GPT-4.1", 128000, (5.0, 15.0)),
       Hosted("gpt-4o", "GPT-4o", "Multimodal flagship", 128000, (2.5, 10.0)),
       Hosted("gpt-4o-mini", "GPT-4o Mini", "Fast and cheap", 128000, (0.15, 0.6))],
      [Hosted("gemini-2.5-pro", "Gemini 2.5 Pro", "Advanced multimodal", 2097152, (1.25, 5.0)),
       Hosted("gemini-2.5-flash", "Gemini 2.5 Flash", "Fast multimodal", 1048576, (0.075, 0.3))])
  }

  /** The repository's own catalog is consistent, so its sync is idempotent. */
  lemma SharedCatalogIsIdempotent(direct: set<string>)
    ensures DistinctIds(SharedCatalog(direct)) && IsIdempotent(SharedCatalog(direct))
  {
    var cat := SharedCatalog(direct);
    SharedIds();
    assert DistinctIds(cat);
    assert IsConsistent(cat);
    SyncIdempotentExactly(cat);
  }

  lemma SharedIds()
    ensures QWEN2.modelId != QWEN9.modelId && QWEN2.modelId != QWEN27.modelId && QWEN9.modelId != QWEN27.modelId
    ensures {QWEN2.modelId, QWEN9.modelId, QWEN27.modelId}
            !! {"qwen2.5-7b-instruct", "qwen3.5-4b-instruct", "qwen2.5-32b-instruct"}
    ensures "gpt-4.1" != "gpt-4o" && "gpt-4.1" != "gpt-4o-mini" && "gpt-4o" != "gpt-4o-mini"
    ensures "gemini-2.5-pro" != "gemini-2.5-flash"
  {
    assert QWEN2.modelId[8] == '2' && QWEN9.modelId[8] == '9' && |QWEN27.modelId| == 20 && |QWEN2.modelId| == 19;
    assert |QWEN9.modelId| == 19 && "qwen2.5-7b-instruct"[4] == '2' && "qwen3.5-4b-instruct"[8] == '4';
    assert QWEN2.modelId[4] == '3' && QWEN9.modelId[4] == '3' && QWEN27.modelId[4] == '3' && "qwen2.5-32b-instruct"[4] == '2';
    assert |"qwen3.5-4b-instruct"| == 19;
    assert |"gpt-4.1"| == 7 && |"gpt-4o"| == 6 && |"gpt-4o-mini"| == 11;
    assert |"gemini-2.5-pro"| == 14 && |"gemini-2.5-flash"| == 16;
  }
}
