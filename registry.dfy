/**
 * The prompt manager's state as a value: a mapping from intent to its
 * ordered list of configurations, plus the order in which the intents were
 * first inserted (`PromptManager._prompts` is an insertion-ordered dict). Each
 * operation of the manager is specified here as a function on that value,
 * together with the save/load record structure and the round trip through it.
 */
module Registries {
  import opened Common
  import opened PromptConfigs

  datatype Registry = Registry(prompts: map<string, seq<PromptConfig>>, order: seq<string>)

  const EmptyRegistry: Registry := Registry(map[], [])

  ghost predicate AllOfIntent(cs: seq<PromptConfig>, intent: string)
  {
    forall c :: c in cs ==> c.intent == intent
  }

  /**
   * The registry invariant: the key order lists each key once, and each
   * intent's list holds configurations of that intent with pairwise
   * distinct versions.
   */
  ghost predicate Valid(reg: Registry)
  {
    && (forall k :: k in reg.prompts <==> k in reg.order)
    && Distinct(reg.order)
    && (forall k :: k in reg.prompts ==> DistinctVersions(reg.prompts[k]) && AllOfIntent(reg.prompts[k], k))
  }

  ghost predicate AllEnabled(reg: Registry)
  {
    forall k, c :: k in reg.prompts && c in reg.prompts[k] ==> c.enabled
  }

  /** The list stored for `intent`, or the empty list `register` creates for a new intent. */
  function ListOf(reg: Registry, intent: string): seq<PromptConfig>
  {
    if intent in reg.prompts then reg.prompts[intent] else []
  }

  // ---------------------------------------------------------------------------
  // register
  // ---------------------------------------------------------------------------

  /** `register`: a new intent gets a list and a place at the end of the order; then replace-or-append. */
  function Registered(reg: Registry, c: PromptConfig): Registry
  {
    Registry(
      reg.prompts[c.intent := Upsert(ListOf(reg, c.intent), c)],
      if c.intent in reg.prompts then reg.order else reg.order + [c.intent])
  }

  lemma UpsertMembers(cs: seq<PromptConfig>, c: PromptConfig)
    ensures forall x :: x in Upsert(cs, c) ==> x in cs || x == c
  {
    match IndexOfVersion(cs, c.version)
    case Some(i) =>
      forall x | x in cs[i := c] ensures x in cs || x == c {
        var j :| 0 <= j < |cs| && cs[i := c][j] == x;
        if j != i { assert x == cs[j]; }
      }
    case None =>
  }

  lemma DistinctAppend(s: seq<string>, k: string)
    requires Distinct(s) && k !in s
    ensures Distinct(s + [k])
  {
    var t := s + [k];
    forall i, j | 0 <= i < j < |t| ensures t[i] != t[j] {
      assert t[i] == s[i];
      if j < |s| { assert t[j] == s[j]; }
    }
  }

  /** `register` keeps the registry invariant. */
  lemma RegisteredKeepsValid(reg: Registry, c: PromptConfig)
    requires Valid(reg)
    ensures Valid(Registered(reg, c))
  {
    var after := Registered(reg, c);
    var cs := ListOf(reg, c.intent);
    UpsertKeepsVersionsDistinct(cs, c);
    UpsertMembers(cs, c);
    if c.intent !in reg.prompts {
      DistinctAppend(reg.order, c.intent);
    }
    forall k | k in after.prompts
      ensures DistinctVersions(after.prompts[k]) && AllOfIntent(after.prompts[k], k)
    {
      if k != c.intent { assert after.prompts[k] == reg.prompts[k]; }
    }
  }

  /**
   * Registering an existing `(intent, version)` overwrites that entry at the
   * same index; the list length, the other entries, the other intents and
   * the key order are unchanged.
   */
  lemma RegisteredReplacesInPlace(reg: Registry, c: PromptConfig, i: nat)
    requires c.intent in reg.prompts && i < |reg.prompts[c.intent]|
    requires reg.prompts[c.intent][i].version == c.version
    requires forall j :: 0 <= j < i ==> reg.prompts[c.intent][j].version != c.version
    ensures Registered(reg, c) == Registry(reg.prompts[c.intent := reg.prompts[c.intent][i := c]], reg.order)
  {
    var cs := reg.prompts[c.intent];
    UpsertReplacesInPlace(cs, c, i);
    assert Upsert(cs, c) == cs[i := c];
  }

  /**
   * Registering a version the intent does not hold appends it at the end of
   * the intent's list; an unseen intent first gets an empty list and goes to
   * the end of the key order.
   */
  lemma RegisteredAppendsNew(reg: Registry, c: PromptConfig)
    requires !HasVersion(ListOf(reg, c.intent), c.version)
    ensures Registered(reg, c) == Registry(
      reg.prompts[c.intent := ListOf(reg, c.intent) + [c]],
      if c.intent in reg.prompts then reg.order else reg.order + [c.intent])
  {
    UpsertAppendsNew(ListOf(reg, c.intent), c);
  }

  /** Every configuration `register` stores is enabled, so registering keeps all configurations enabled. */
  lemma RegisteredKeepsAllEnabled(reg: Registry, intent: string, name: string, systemPrompt: string,
                                  version: string, weight: int, includeHistory: bool, metadata: map<string, Value>)
    requires AllEnabled(reg)
    ensures AllEnabled(Registered(reg, NewConfig(intent, name, systemPrompt, version, weight, includeHistory, metadata)))
  {
    var c := NewConfig(intent, name, systemPrompt, version, weight, includeHistory, metadata);
    UpsertMembers(ListOf(reg, intent), c);
    var after := Registered(reg, c);
    forall k, x | k in after.prompts && x in after.prompts[k] ensures x.enabled {
      if k != intent { assert after.prompts[k] == reg.prompts[k]; }
    }
  }

  // ---------------------------------------------------------------------------
  // unregister
  // ---------------------------------------------------------------------------

  /** The key order after `del`: `k` removed, the other keys in order. */
  function RemoveKey(s: seq<string>, k: string): (r: seq<string>)
    ensures forall x :: x in r <==> x in s && x != k
  {
    if s == [] then []
    else (if s[0] != k then [s[0]] else []) + RemoveKey(s[1..], k)
  }

  /** Deleting a key that is not in the order leaves the order unchanged. */
  lemma {:induction false} RemoveAbsentKey(s: seq<string>, k: string)
    requires k !in s
    ensures RemoveKey(s, k) == s
  {
    if s != [] {
      assert k !in s[1..] by {
        forall j | 0 <= j < |s| - 1 ensures s[1..][j] != k { assert s[1..][j] == s[j + 1]; }
      }
      RemoveAbsentKey(s[1..], k);
      assert s == [s[0]] + s[1..];
    }
  }

  /** Deleting the key at index `i` of a repeat-free order drops exactly that index; the other keys keep their order. */
  lemma {:induction false} RemoveKeyDropsEntry(s: seq<string>, i: int)
    requires Distinct(s) && 0 <= i < |s|
    ensures RemoveKey(s, s[i]) == s[..i] + s[i + 1..]
  {
    var k := s[i];
    var tail := s[1..];
    if i == 0 {
      assert k !in tail by {
        forall j | 0 <= j < |tail| ensures tail[j] != k { assert tail[j] == s[j + 1]; }
      }
      RemoveAbsentKey(tail, k);
      assert s[..0] + s[1..] == tail;
    } else {
      assert Distinct(tail) by {
        forall a, b | 0 <= a < b < |tail| ensures tail[a] != tail[b] {
          assert tail[a] == s[a + 1] && tail[b] == s[b + 1];
        }
      }
      assert tail[i - 1] == k;
      RemoveKeyDropsEntry(tail, i - 1);
      assert s[0] != k;
      assert RemoveKey(s, k) == [s[0]] + RemoveKey(tail, k);
      assert tail[..i - 1] == s[1..i] && tail[i..] == s[i + 1..];
      assert [s[0]] + s[1..i] == s[..i];
    }
  }

  lemma {:induction false} RemoveKeyKeepsDistinct(s: seq<string>, k: string)
    requires Distinct(s)
    ensures Distinct(RemoveKey(s, k))
  {
    if s != [] {
      var tail := s[1..];
      assert Distinct(tail) by {
        forall i, j | 0 <= i < j < |tail| ensures tail[i] != tail[j] {
          assert tail[i] == s[i + 1] && tail[j] == s[j + 1];
        }
      }
      RemoveKeyKeepsDistinct(tail, k);
      var rest := RemoveKey(tail, k);
      if s[0] != k {
        assert s[0] !in tail by {
          forall j | 0 <= j < |tail| ensures tail[j] != s[0] { assert tail[j] == s[j + 1]; }
        }
        var r := [s[0]] + rest;
        forall i, j | 0 <= i < j < |r| ensures r[i] != r[j] {
          assert r[j] == rest[j - 1];
          if i > 0 { assert r[i] == rest[i - 1]; }
        }
      }
    }
  }

  lemma {:induction false} WithoutVersionKeepsDistinct(cs: seq<PromptConfig>, v: string)
    requires DistinctVersions(cs)
    ensures DistinctVersions(WithoutVersion(cs, v))
  {
    if cs != [] {
      var tail := cs[1..];
      assert DistinctVersions(tail) by {
        forall i, j | 0 <= i < j < |tail| ensures tail[i].version != tail[j].version {
          assert tail[i] == cs[i + 1] && tail[j] == cs[j + 1];
        }
      }
      WithoutVersionKeepsDistinct(tail, v);
      var rest := WithoutVersion(tail, v);
      WithoutVersionMembers(tail, v);
      if cs[0].version != v {
        forall x | x in rest ensures x.version != cs[0].version {
          var j :| 0 <= j < |tail| && tail[j] == x;
          assert tail[j] == cs[j + 1];
        }
        var r := [cs[0]] + rest;
        forall i, j | 0 <= i < j < |r| ensures r[i].version != r[j].version {
          assert r[j] == rest[j - 1];
          assert r[j] in rest;
          if i > 0 { assert r[i] == rest[i - 1]; }
        }
      }
    }
  }

  /**
   * `unregister`: an absent intent changes nothing; a non-empty version
   * filters that version out of the list and keeps the key (even when the
   * list becomes empty); no version, or `""`, deletes the key.
   */
  function Unregistered(reg: Registry, intent: string, version: Option<string>): Registry
  {
    if intent !in reg.prompts then reg
    else if Truthy(version) then
      Registry(reg.prompts[intent := WithoutVersion(reg.prompts[intent], version.value)], reg.order)
    else
      Registry(reg.prompts - {intent}, RemoveKey(reg.order, intent))
  }

  /** `unregister` keeps the registry invariant. */
  lemma UnregisteredKeepsValid(reg: Registry, intent: string, version: Option<string>)
    requires Valid(reg)
    ensures Valid(Unregistered(reg, intent, version))
  {
    var after := Unregistered(reg, intent, version);
    if intent in reg.prompts {
      if Truthy(version) {
        WithoutVersionKeepsDistinct(reg.prompts[intent], version.value);
        WithoutVersionMembers(reg.prompts[intent], version.value);
        forall k | k in after.prompts
          ensures DistinctVersions(after.prompts[k]) && AllOfIntent(after.prompts[k], k)
        {
          if k != intent { assert after.prompts[k] == reg.prompts[k]; }
        }
      } else {
        RemoveKeyKeepsDistinct(reg.order, intent);
      }
    }
  }

  /**
   * Deleting an intent (no version, or `""`) removes it from the intents and
   * the key order; in a valid registry the intent's index is dropped from the
   * order and the other intents keep their order.
   */
  lemma UnregisterIntentRemovesKey(reg: Registry, intent: string, version: Option<string>)
    requires !Truthy(version)
    ensures intent !in Unregistered(reg, intent, version).prompts
    ensures Valid(reg) ==> intent !in Unregistered(reg, intent, version).order
    ensures Valid(reg) ==> forall i :: 0 <= i < |reg.order| && reg.order[i] == intent ==>
      Unregistered(reg, intent, version).order == reg.order[..i] + reg.order[i + 1..]
    ensures intent !in reg.prompts ==> Unregistered(reg, intent, version) == reg
  {
    if Valid(reg) {
      forall i | 0 <= i < |reg.order| && reg.order[i] == intent
        ensures Unregistered(reg, intent, version).order == reg.order[..i] + reg.order[i + 1..]
      {
        RemoveKeyDropsEntry(reg.order, i);
      }
    }
  }

  /** After unregistering version `v`, asking for `v` finds nothing, and the intent stays registered. */
  lemma UnregisterVersionHidesIt(reg: Registry, intent: string, v: string, r: int)
    requires v != ""
    ensures ConfigFor(Unregistered(reg, intent, Some(v)), intent, Some(v), r) == Success(None)
    ensures intent in Unregistered(reg, intent, Some(v)).prompts <==> intent in reg.prompts
    ensures Unregistered(reg, intent, Some(v)).order == reg.order
  {
    if intent in reg.prompts {
      SelectRemovedVersion(reg.prompts[intent], v, r);
    }
  }

  /** After unregistering version `v`, every other version of the intent is retrieved as before. */
  lemma UnregisterVersionKeepsOthers(reg: Registry, intent: string, v: string, w: string, r: int)
    requires v != "" && w != "" && w != v
    ensures ConfigFor(Unregistered(reg, intent, Some(v)), intent, Some(w), r) == ConfigFor(reg, intent, Some(w), r)
  {
    if intent in reg.prompts {
      SelectOtherVersion(reg.prompts[intent], v, w, r);
    }
  }

  // ---------------------------------------------------------------------------
  // Lookups
  // ---------------------------------------------------------------------------

  /** `get_config`: absent for an unknown intent, otherwise the selection over its list. */
  function ConfigFor(reg: Registry, intent: string, version: Option<string>, r: int): Result<Option<PromptConfig>, Error>
  {
    if intent !in reg.prompts then Success(None) else SelectConfig(reg.prompts[intent], version, r)
  }

  /** `get_prompt`: the template of the configuration `get_config` resolves. */
  function PromptFor(reg: Registry, intent: string, version: Option<string>, r: int): Result<Option<Template>, Error>
  {
    match ConfigFor(reg, intent, version, r)
    case Failure(e) => Failure(e)
    case Success(None) => Success(None)
    case Success(Some(c)) => Success(Some(BuildTemplate(c)))
  }

  /** A repeat-free sequence has as many distinct elements as entries. */
  lemma {:induction false} DistinctCard(s: seq<string>)
    requires Distinct(s)
    ensures |set x | x in s| == |s|
  {
    if s != [] {
      var init := s[..|s| - 1];
      var last := s[|s| - 1];
      assert Distinct(init) by {
        forall i, j | 0 <= i < j < |init| ensures init[i] != init[j] {
          assert init[i] == s[i] && init[j] == s[j];
        }
      }
      DistinctCard(init);
      assert s == init + [last];
      assert last !in init by {
        forall j | 0 <= j < |init| ensures init[j] != last { assert init[j] == s[j]; }
      }
      assert (set x | x in s) == (set x | x in init) + {last};
    }
  }

  /** `len()` of the dict equals the length of its key order. */
  lemma KeyCountIsOrderLength(reg: Registry)
    requires Valid(reg)
    ensures |reg.prompts| == |reg.order|
  {
    DistinctCard(reg.order);
    assert reg.prompts.Keys == set x | x in reg.order;
  }

  // ---------------------------------------------------------------------------
  // save and _load_from_file
  // ---------------------------------------------------------------------------

  /** The eight-field record `save` emits for one configuration. */
  datatype Record = Record(
    intent: string,
    name: string,
    systemPrompt: string,
    version: string,
    weight: int,
    enabled: bool,
    includeHistory: bool,
    metadata: map<string, Value>)

  /** The saved structure: intents in key order, each with its records in list order. */
  type Snapshot = seq<(string, seq<Record>)>

  function ToRecord(c: PromptConfig): Record
  {
    Record(c.intent, c.name, c.systemPrompt, c.version, c.weight, c.enabled, c.includeHistory, c.metadata)
  }

  function RecordsOf(cs: seq<PromptConfig>): seq<Record>
  {
    seq(|cs|, i requires 0 <= i < |cs| => ToRecord(cs[i]))
  }

  /** The record structure `save` writes: every intent in key order, every configuration (disabled ones too). */
  function SnapshotOf(reg: Registry): (snap: Snapshot)
    requires forall k :: k in reg.order ==> k in reg.prompts
    ensures |snap| == |reg.order|
    ensures forall i :: 0 <= i < |snap| ==> snap[i].0 == reg.order[i] && |snap[i].1| == |reg.prompts[reg.order[i]]|
    ensures forall i, j :: 0 <= i < |snap| && 0 <= j < |snap[i].1| ==>
      var c := reg.prompts[reg.order[i]][j];
      snap[i].1[j] == Record(c.intent, c.name, c.systemPrompt, c.version, c.weight, c.enabled, c.includeHistory, c.metadata)
  {
    seq(|reg.order|, i requires 0 <= i < |reg.order| => (reg.order[i], RecordsOf(reg.prompts[reg.order[i]])))
  }

  /**
   * `register(**record)` has no `enabled` parameter: the record's `enabled`
   * and `metadata` entries land in the new configuration's metadata.
   */
  function LoadedMetadata(rec: Record): map<string, Value>
  {
    map["enabled" := Boolean(rec.enabled), "metadata" := Object(rec.metadata)]
  }

  function FromRecord(rec: Record): PromptConfig
  {
    NewConfig(rec.intent, rec.name, rec.systemPrompt, rec.version, rec.weight, rec.includeHistory, LoadedMetadata(rec))
  }

  /** Registering each record of `recs` in turn. */
  function LoadRecords(reg: Registry, recs: seq<Record>): Registry
    decreases |recs|
  {
    if recs == [] then reg
    else Registered(LoadRecords(reg, recs[..|recs| - 1]), FromRecord(recs[|recs| - 1]))
  }

  /** `_load_from_file`: registering every record of every intent, in order. */
  function Loaded(reg: Registry, snap: Snapshot): Registry
    decreases |snap|
  {
    if snap == [] then reg
    else LoadRecords(Loaded(reg, snap[..|snap| - 1]), snap[|snap| - 1].1)
  }

  /** What a saved configuration becomes after loading: enabled, with the saved `enabled` and `metadata` nested in its metadata. */
  function Reloaded(c: PromptConfig): PromptConfig
  {
    c.(enabled := true, metadata := map["enabled" := Boolean(c.enabled), "metadata" := Object(c.metadata)])
  }

  function ReloadedAll(cs: seq<PromptConfig>): seq<PromptConfig>
  {
    seq(|cs|, i requires 0 <= i < |cs| => Reloaded(cs[i]))
  }

  /** The keys of `ks` whose lists are non-empty, in order. */
  function NonEmptyKeys(ks: seq<string>, prompts: map<string, seq<PromptConfig>>): seq<string>
    requires forall k :: k in ks ==> k in prompts
  {
    if ks == [] then []
    else
      var last := ks[|ks| - 1];
      NonEmptyKeys(ks[..|ks| - 1], prompts) + (if prompts[last] != [] then [last] else [])
  }

  /** The configurations of `ks` with non-empty lists, as reloaded after a save. */
  function ReloadedMap(ks: seq<string>, prompts: map<string, seq<PromptConfig>>): map<string, seq<PromptConfig>>
    requires forall k :: k in ks ==> k in prompts
  {
    map k | k in ks && prompts[k] != [] :: ReloadedAll(prompts[k])
  }

  lemma ReloadedMapStep(ks: seq<string>, k: string, prompts: map<string, seq<PromptConfig>>)
    requires forall x :: x in ks ==> x in prompts
    requires k in prompts
    ensures ReloadedMap(ks + [k], prompts) ==
      if prompts[k] != [] then ReloadedMap(ks, prompts)[k := ReloadedAll(prompts[k])] else ReloadedMap(ks, prompts)
  {
    assert forall x :: x in ks + [k] <==> x in ks || x == k;
  }

  lemma RegisterNextRecord(st: Registry, k: string, before: seq<PromptConfig>, c: PromptConfig)
    requires c.intent == k && !HasVersion(before, c.version)
    ensures Registered(Registry(st.prompts[k := before], st.order + [k]), c) ==
      Registry(st.prompts[k := before + [c]], st.order + [k])
  {
    UpsertAppendsNew(before, c);
  }

  lemma RecordsPrefix(cs: seq<PromptConfig>, m: nat)
    requires 0 < m <= |cs|
    ensures var pre := RecordsOf(cs)[..m];
      pre != [] && pre[..|pre| - 1] == RecordsOf(cs)[..m - 1] && FromRecord(pre[|pre| - 1]) == Reloaded(cs[m - 1])
  {
  }

  lemma ReloadedStep(cs: seq<PromptConfig>, m: nat)
    requires DistinctVersions(cs) && 0 < m <= |cs|
    ensures ReloadedAll(cs[..m]) == ReloadedAll(cs[..m - 1]) + [Reloaded(cs[m - 1])]
    ensures !HasVersion(ReloadedAll(cs[..m - 1]), cs[m - 1].version)
  {
    var before := ReloadedAll(cs[..m - 1]);
    forall j | 0 <= j < |before| ensures before[j].version != cs[m - 1].version {
      assert before[j].version == cs[j].version;
    }
  }

  lemma {:induction false} LoadIntentRecords(st: Registry, k: string, cs: seq<PromptConfig>, m: nat)
    requires k !in st.prompts && m <= |cs|
    requires DistinctVersions(cs) && AllOfIntent(cs, k)
    ensures LoadRecords(st, RecordsOf(cs)[..m]) ==
      if m == 0 then st else Registry(st.prompts[k := ReloadedAll(cs[..m])], st.order + [k])
  {
    if m == 0 {
      assert RecordsOf(cs)[..0] == [];
    } else {
      LoadIntentRecords(st, k, cs, m - 1);
      RecordsPrefix(cs, m);
      ReloadedStep(cs, m);
      var c := Reloaded(cs[m - 1]);
      assert cs[m - 1] in cs;
      var before := ReloadedAll(cs[..m - 1]);
      if m == 1 {
        assert before == [];
        RegisteredAppendsNew(st, c);
      } else {
        RegisterNextRecord(st, k, before, c);
      }
    }
  }

  lemma SnapshotPrefix(reg: Registry, n: nat)
    requires forall k :: k in reg.order ==> k in reg.prompts
    requires 0 < n <= |reg.order|
    ensures var pre := SnapshotOf(reg)[..n];
      pre != [] && pre[..|pre| - 1] == SnapshotOf(reg)[..n - 1] && pre[|pre| - 1].1 == RecordsOf(reg.prompts[reg.order[n - 1]])
  {
  }

  lemma OrderPrefix(order: seq<string>, n: nat)
    requires Distinct(order) && 0 < n <= |order|
    ensures order[..n] == order[..n - 1] + [order[n - 1]]
    ensures order[n - 1] !in order[..n - 1]
  {
    var init := order[..n - 1];
    forall j | 0 <= j < |init| ensures init[j] != order[n - 1] {
      assert init[j] == order[j];
    }
  }

  lemma LoadSnapshotStep(reg: Registry, n: nat)
    requires forall k :: k in reg.order ==> k in reg.prompts
    requires Distinct(reg.order) && 0 < n <= |reg.order|
    requires DistinctVersions(reg.prompts[reg.order[n - 1]]) && AllOfIntent(reg.prompts[reg.order[n - 1]], reg.order[n - 1])
    requires Loaded(EmptyRegistry, SnapshotOf(reg)[..n - 1]) ==
      Registry(ReloadedMap(reg.order[..n - 1], reg.prompts), NonEmptyKeys(reg.order[..n - 1], reg.prompts))
    ensures Loaded(EmptyRegistry, SnapshotOf(reg)[..n]) ==
      Registry(ReloadedMap(reg.order[..n], reg.prompts), NonEmptyKeys(reg.order[..n], reg.prompts))
  {
    SnapshotPrefix(reg, n);
    OrderPrefix(reg.order, n);
    var k := reg.order[n - 1];
    var cs := reg.prompts[k];
    var prev := Loaded(EmptyRegistry, SnapshotOf(reg)[..n - 1]);
    assert k !in prev.prompts;
    LoadIntentRecords(prev, k, cs, |cs|);
    assert RecordsOf(cs)[..|cs|] == RecordsOf(cs);
    assert cs[..|cs|] == cs;
    ReloadedMapStep(reg.order[..n - 1], k, reg.prompts);
    assert reg.order[..n][..n - 1] == reg.order[..n - 1];
  }

  lemma {:induction false} LoadSnapshotPrefix(reg: Registry, n: nat)
    requires Valid(reg) && n <= |reg.order|
    ensures Loaded(EmptyRegistry, SnapshotOf(reg)[..n]) ==
      Registry(ReloadedMap(reg.order[..n], reg.prompts), NonEmptyKeys(reg.order[..n], reg.prompts))
  {
    if n == 0 {
      assert SnapshotOf(reg)[..0] == [];
      assert reg.order[..0] == [];
      assert ReloadedMap([], reg.prompts) == map[];
    } else {
      LoadSnapshotPrefix(reg, n - 1);
      assert reg.order[n - 1] in reg.prompts;
      LoadSnapshotStep(reg, n);
    }
  }

  lemma ReloadedMapOfAllKeys(reg: Registry)
    requires forall k :: k in reg.prompts <==> k in reg.order
    ensures ReloadedMap(reg.order, reg.prompts) ==
      map k | k in reg.prompts && reg.prompts[k] != [] :: ReloadedAll(reg.prompts[k])
  {
  }

  /**
   * Save followed by load is not the identity: every intent with at least
   * one configuration comes back in the same key order, each configuration
   * at its index with all fields kept except that it is enabled and its
   * metadata is `{"enabled": saved enabled, "metadata": saved metadata}`;
   * intents whose list was empty disappear.
   */
  lemma SaveThenLoad(reg: Registry)
    requires Valid(reg)
    ensures Loaded(EmptyRegistry, SnapshotOf(reg)) == Registry(
      map k | k in reg.prompts && reg.prompts[k] != [] :: ReloadedAll(reg.prompts[k]),
      NonEmptyKeys(reg.order, reg.prompts))
  {
    LoadSnapshotPrefix(reg, |reg.order|);
    ReloadedMapOfAllKeys(reg);
    assert SnapshotOf(reg)[..|reg.order|] == SnapshotOf(reg);
    assert reg.order[..|reg.order|] == reg.order;
  }

  /** Every configuration loaded from a save is enabled, whatever was saved. */
  lemma SaveThenLoadEnablesAll(reg: Registry)
    requires Valid(reg)
    ensures AllEnabled(Loaded(EmptyRegistry, SnapshotOf(reg)))
  {
    SaveThenLoad(reg);
  }

  /** A concrete registry that does not survive a save and load unchanged. */
  lemma SaveThenLoadChangesMetadata()
    ensures var c := NewConfig("general", "assistant", "be helpful", DefaultVersion, DefaultWeight, false, map[]);
      var reg := Registry(map["general" := [c]], ["general"]);
      Valid(reg) && Loaded(EmptyRegistry, SnapshotOf(reg)) != reg
  {
    var c := NewConfig("general", "assistant", "be helpful", DefaultVersion, DefaultWeight, false, map[]);
    var reg := Registry(map["general" := [c]], ["general"]);
    assert Valid(reg);
    SaveThenLoad(reg);
    var back := Loaded(EmptyRegistry, SnapshotOf(reg));
    assert "general" in reg.prompts && reg.prompts["general"] != [];
    assert back.prompts["general"] == ReloadedAll([c]);
    assert "enabled" in back.prompts["general"][0].metadata;
    assert "enabled" !in reg.prompts["general"][0].metadata;
  }
}
