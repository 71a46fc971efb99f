/** What one sync of the model catalog leaves in every row, field by field: the script
    of apps/core/prisma/sync-ai-providers.ts said without its statements. */
module CatalogRows {
  import opened CatalogSync
  import opened Options

  /** The tier assignment is for this row. */
  predicate IsFor(a: TierRow, key: Key) {
    a.provider == key.provider && a.modelId == key.modelId
  }

  ghost predicate HasTierAssigned(cat: Catalog, key: Key) {
    exists i :: 0 <= i < |cat.tiers| && IsFor(cat.tiers[i], key)
  }

  /** Google rows, retired and directly addressed models hold no tier; an assigned row
      holds the assigned one; any other keeps its own. */
  ghost predicate TierIs(cat: Catalog, key: Key, before: Option<Tier>, after: Option<Tier>) {
    if key.provider == "google" || (key.provider == "vllm" && (key.modelId in cat.retired || key.modelId in cat.direct)) then
      after == None
    else
      && (forall i :: 0 <= i < |cat.tiers| && IsFor(cat.tiers[i], key) ==> after == Some(cat.tiers[i].tier))
      && (!HasTierAssigned(cat, key) ==> after == before)
  }

  /** A retired row that holds or is given a tier is switched off; nothing else is. */
  ghost predicate ActivityIs(cat: Catalog, key: Key, tier: Option<Tier>, before: bool, after: bool) {
    after <==> before && !(key.provider == "vllm" && key.modelId in cat.retired && (HasTierAssigned(cat, key) || tier.Some?))
  }

  ghost predicate IsUntiered(cat: Catalog, key: Key) {
    key.provider == "vllm" && exists i :: 0 <= i < |cat.untiered| && cat.untiered[i].modelId == key.modelId
  }

  /** The estimate of an untiered model, or else that of its tier assignment. */
  ghost predicate EstimateIs(cat: Catalog, key: Key, before: Option<Estimate>, after: Option<Estimate>) {
    if IsUntiered(cat, key) then
      forall i :: 0 <= i < |cat.untiered| && cat.untiered[i].modelId == key.modelId ==>
        after == Some(cat.untiered[i].estimate)
    else
      && (forall i :: 0 <= i < |cat.tiers| && IsFor(cat.tiers[i], key) ==> after == Some(cat.tiers[i].estimate))
      && (!HasTierAssigned(cat, key) ==> after == before)
  }

  /** The tier part of the script makes `r` of the row `u`. */
  ghost predicate TiersMake(cat: Catalog, key: Key, u: Row, r: Row) {
    && r.name == u.name && r.description == u.description && r.maxTokens == u.maxTokens && r.pricing == u.pricing
    && r.supportsTools == u.supportsTools && r.supportsImages == u.supportsImages
    && r.supportsStreaming == u.supportsStreaming
    && TierIs(cat, key, u.tier, r.tier) && ActivityIs(cat, key, u.tier, u.isActive, r.isActive)
    && EstimateIs(cat, key, u.estimate, r.estimate)
  }

  lemma TieredFields(cat: Catalog, key: Key, u: Row)
    requires DistinctIds(cat)
    ensures TiersMake(cat, key, u, TieredRow(cat, key, u))
  {
    var (a, e) := (AssignmentFor(cat, key), EstimateFor(cat, key));
    assert TieredRow(cat, key, u)
        == Steps(a, e, key.provider == "google", key.provider == "vllm" && key.modelId in cat.retired,
                 key.provider == "vllm" && key.modelId in cat.direct, u);
    ProvidersDiffer();
    AssignmentIs(cat, key);
    EstimateForIs(cat, key);
    StepsMake(a, e, key.provider == "google", key.provider == "vllm" && key.modelId in cat.retired,
              key.provider == "vllm" && key.modelId in cat.direct, u);
    hide AssignmentFor, EstimateFor, Steps, DistinctIds, TieredRow, HasTierAssigned, IsUntiered, AssignsTier, EstimatesModel;
  }

  lemma AssignmentIs(cat: Catalog, key: Key)
    requires DistinctIds(cat)
    ensures var a := AssignmentFor(cat, key);
            && (a.Some? <==> HasTierAssigned(cat, key))
            && forall i :: 0 <= i < |cat.tiers| && IsFor(cat.tiers[i], key) ==>
                 a == Some((cat.tiers[i].tier, cat.tiers[i].estimate))
  {
    if i :| 0 <= i < |cat.tiers| && IsFor(cat.tiers[i], key) { assert AssignsTier(cat.tiers, key); }
  }

  lemma EstimateForIs(cat: Catalog, key: Key)
    requires DistinctIds(cat)
    ensures var e := EstimateFor(cat, key);
            && (e.Some? <==> IsUntiered(cat, key))
            && (IsUntiered(cat, key) ==>
                 forall i :: 0 <= i < |cat.untiered| && cat.untiered[i].modelId == key.modelId ==>
                   e == Some(cat.untiered[i].estimate))
  {
    if IsUntiered(cat, key) { assert EstimatesModel(cat.untiered, key.modelId); }
  }

  /** What the sync makes of a row follows from what its upsert leaves. */
  lemma AfterUpsert(cat: Catalog, t: Table, key: Key)
    requires DistinctIds(cat)
    ensures var u := UpsertedRow(cat, key, At(t, key));
            && (u.Some? <==> key in Synced(cat, t))
            && (u.Some? ==> TiersMake(cat, key, u.value, Synced(cat, t)[key]))
  {
    SyncsRowByRow(cat, t, key);
    var u := UpsertedRow(cat, key, At(t, key));
    if u.Some? { TieredFields(cat, key, u.value); }
    hide UpsertedRow, TieredRow, TiersMake, Synced, DistinctIds;
  }

  /** A listed vLLM model: the catalog's name, description, token limit and tools; its
      images as listed when the row was there, none when it is new. */
  lemma SyncedModel(cat: Catalog, t: Table, i: nat)
    requires DistinctIds(cat) && i < |cat.vllm|
    ensures var (m, key, after) := (cat.vllm[i], Key("vllm", cat.vllm[i].modelId), Synced(cat, t));
            && key in after
            && after[key].name == m.name && after[key].description == m.description
            && after[key].maxTokens == m.maxTokens && after[key].supportsTools == m.supportsTools
            && after[key].supportsImages == (key in t && m.supportsImages)
            && after[key].supportsStreaming == (key !in t || t[key].supportsStreaming)
            && after[key].pricing == (if key in t then t[key].pricing else None)
            && var tier := if key in t then t[key].tier else None;
               && TierIs(cat, key, tier, after[key].tier) && ActivityIs(cat, key, tier, true, after[key].isActive)
               && EstimateIs(cat, key, if key in t then t[key].estimate else None, after[key].estimate)
  {
    OnlyModel(cat, i);
    AfterUpsert(cat, t, Key("vllm", cat.vllm[i].modelId));
    hide UpsertedRow, Synced, DistinctIds, TierIs, ActivityIs, EstimateIs;
  }

  /** A listed hosted model: created as listed, with everything supported; a row that is
      there is switched on and otherwise kept. */
  lemma SyncedHosted(cat: Catalog, t: Table, provider: string, ms: seq<Hosted>, i: nat)
    requires DistinctIds(cat) && i < |ms|
    requires (provider == "openai" && ms == cat.openai) || (provider == "google" && ms == cat.google)
    ensures var (m, key, after) := (ms[i], Key(provider, ms[i].modelId), Synced(cat, t));
            && key in after
            && after[key].name == (if key in t then t[key].name else m.name)
            && after[key].description == (if key in t then t[key].description else m.description)
            && after[key].maxTokens == (if key in t then t[key].maxTokens else m.maxTokens)
            && after[key].supportsTools == (key !in t || t[key].supportsTools)
            && after[key].supportsImages == (key !in t || t[key].supportsImages)
            && after[key].supportsStreaming == (key !in t || t[key].supportsStreaming)
            && after[key].pricing == (if key in t then t[key].pricing else Some(m.pricing))
            && var tier := if key in t then t[key].tier else None;
               && TierIs(cat, key, tier, after[key].tier) && ActivityIs(cat, key, tier, true, after[key].isActive)
               && EstimateIs(cat, key, if key in t then t[key].estimate else None, after[key].estimate)
  {
    var key := Key(provider, ms[i].modelId);
    ProvidersDiffer();
    assert ListsHosted(ms, key.modelId);
    OnlyHosted(ms, i, At(t, key));
    var u := UpsertedRow(cat, key, At(t, key));
    assert u == HostedRow(ms, key.modelId, At(t, key));
    AfterUpsert(cat, t, key);
    hide UpsertedRow, HostedRow, Synced, DistinctIds, TierIs, ActivityIs, EstimateIs;
  }

  lemma OnlyHosted(ms: seq<Hosted>, i: nat, r: Option<Row>)
    requires i < |ms| && forall i, j :: 0 <= i < j < |ms| ==> ms[i].modelId != ms[j].modelId
    ensures ListsHosted(ms, ms[i].modelId)
    ensures HostedRow(ms, ms[i].modelId, r) == Some(if r.None? then CreatedHosted(ms[i]) else r.value.(isActive := true))
  {
    assert ListsHosted(ms, ms[i].modelId);
  }

  /** The OpenCode model is always as the script writes it. */
  lemma SyncedOpenCode(cat: Catalog, t: Table)
    requires DistinctIds(cat)
    ensures var (key, after) := (Key("opencode", "deepseek-v4-flash"), Synced(cat, t));
            && key in after
            && after[key].name == "DeepSeek V4 Flash (OpenCode Go)" && after[key].maxTokens == 32768
            && after[key].description == "OpenCode Go subscription model"
            && !after[key].supportsTools && !after[key].supportsImages && after[key].supportsStreaming
            && after[key].pricing == (if key in t then t[key].pricing else None)
            && var tier := if key in t then t[key].tier else None;
               && TierIs(cat, key, tier, after[key].tier) && after[key].isActive
               && EstimateIs(cat, key, if key in t then t[key].estimate else None, after[key].estimate)
  {
    var key := Key("opencode", "deepseek-v4-flash");
    ProvidersDiffer();
    AfterUpsert(cat, t, key);
    hide Synced, DistinctIds, TierIs, EstimateIs;
  }

  /** Any other row: none is created, and one that is there has only the tier part of
      the script to expect. */
  lemma SyncedOther(cat: Catalog, t: Table, key: Key)
    requires DistinctIds(cat) && key != Key("opencode", "deepseek-v4-flash")
    requires key.provider == "vllm" ==> forall i :: 0 <= i < |cat.vllm| ==> cat.vllm[i].modelId != key.modelId
    requires key.provider == "openai" ==> forall i :: 0 <= i < |cat.openai| ==> cat.openai[i].modelId != key.modelId
    requires key.provider == "google" ==> forall i :: 0 <= i < |cat.google| ==> cat.google[i].modelId != key.modelId
    ensures key in Synced(cat, t) <==> key in t
    ensures key in t ==> TiersMake(cat, key, t[key], Synced(cat, t)[key])
  {
    AfterUpsert(cat, t, key);
    hide Synced, DistinctIds, TiersMake;
  }
}
