/**
 * The prompt manager object: an intent-keyed registry of prompt
 * configurations that it updates in place, with weighted A/B selection,
 * template shaping, routing with a default intent, and a snapshot to and
 * from a record structure. Each method is tied to the function of
 * module Registries that specifies it.
 */
module PromptManagers {
  import opened Common
  import opened PromptConfigs
  import opened Registries

  class PromptManager {
    /** `_prompts`: intent -> its configurations in list order. */
    var prompts: map<string, seq<PromptConfig>>
    /** The insertion order of the keys of `_prompts`. */
    var order: seq<string>
    /** `_storage_path`, `None` when no (or an empty) path was given. */
    var storagePath: Option<string>

    function State(): Registry
      reads this
    {
      Registry(prompts, order)
    }

    ghost predicate Valid()
      reads this
    {
      Registries.Valid(State()) && (storagePath.Some? ==> storagePath.value != "")
    }

    /**
     * `PromptManager(storage_path)`. The file system is a parameter:
     * `stored` is the saved record structure when the file exists.
     */
    constructor (path: Option<string>, stored: Option<Snapshot>)
      ensures Valid()
      ensures storagePath == if Truthy(path) then path else None
      ensures State() == if Truthy(path) && stored.Some? then Loaded(EmptyRegistry, stored.value) else EmptyRegistry
    {
      prompts := map[];
      order := [];
      storagePath := if Truthy(path) then path else None;
      new;
      LoadFromFile(stored);
    }

    /** `register` (the manager itself is not returned: chaining is not modelled). */
    method Register(intent: string, name: string, systemPrompt: string, version: string := DefaultVersion,
                    weight: int := DefaultWeight, includeHistory: bool := false, metadata: map<string, Value> := map[])
      requires Valid()
      modifies this
      ensures Valid()
      ensures State() == Registered(old(State()), NewConfig(intent, name, systemPrompt, version, weight, includeHistory, metadata))
      ensures storagePath == old(storagePath)
    {
      var config := NewConfig(intent, name, systemPrompt, version, weight, includeHistory, metadata);
      ghost var before := State();
      RegisteredKeepsValid(before, config);
      var cs := if intent in prompts then prompts[intent] else [];
      for i := 0 to |cs|
        invariant prompts == before.prompts && order == before.order
        invariant forall j :: 0 <= j < i ==> cs[j].version != version
      {
        if cs[i].version == version {
          RegisteredReplacesInPlace(before, config, i);
          prompts := prompts[intent := cs[i := config]];
          return;
        }
      }
      assert !HasVersion(ListOf(before, intent), version);
      RegisteredAppendsNew(before, config);
      if intent !in prompts {
        order := order + [intent];
      }
      prompts := prompts[intent := cs + [config]];
    }

    /** `unregister`: false and no change for an unknown intent; otherwise remove a version or the whole intent. */
    method Unregister(intent: string, version: Option<string> := None) returns (removed: bool)
      requires Valid()
      modifies this
      ensures Valid()
      ensures removed <==> intent in old(prompts)
      ensures State() == Unregistered(old(State()), intent, version)
      ensures storagePath == old(storagePath)
    {
      UnregisteredKeepsValid(State(), intent, version);
      if intent !in prompts {
        return false;
      }
      if Truthy(version) {
        prompts := prompts[intent := WithoutVersion(prompts[intent], version.value)];
      } else {
        prompts := prompts - {intent};
        order := RemoveKey(order, intent);
      }
      return true;
    }

    /** `list_intents`: every registered intent once, in first-registration order. */
    function ListIntents(): (intents: seq<string>)
      reads this
      requires Valid()
      ensures forall k :: k in intents <==> k in prompts
      ensures Distinct(intents)
    {
      order
    }

    /** `intent in manager`: agrees with `list_intents`, and counts intents whose list is empty. */
    function Contains(intent: string): (b: bool)
      reads this
      requires Valid()
      ensures b <==> intent in ListIntents()
    {
      intent in prompts
    }

    /** `len(manager)`: the number of intents `list_intents` reports. */
    function Count(): (n: nat)
      reads this
      requires Valid()
      ensures n == |ListIntents()|
    {
      KeyCountIsOrderLength(State());
      |prompts|
    }

    /**
     * `get_config`, with `r` standing for the value `random.randint(1, total)`
     * returns; it is read only by the weighted branch.
     */
    method GetConfig(intent: string, version: Option<string>, r: int) returns (res: Result<Option<PromptConfig>, Error>)
      ensures res == ConfigFor(State(), intent, version, r)
      ensures res.Success? && res.value.Some? ==>
        intent in prompts && res.value.value in prompts[intent] && res.value.value.enabled
    {
      if intent !in prompts {
        return Success(None);
      }
      SelectedIsEnabledMember(prompts[intent], version, r);
      res := SelectFrom(prompts[intent], version, r);
    }

    /** `get_prompt`: absent exactly when `get_config` is, otherwise the resolved configuration's template. */
    method GetPrompt(intent: string, version: Option<string>, r: int) returns (res: Result<Option<Template>, Error>)
      ensures res == PromptFor(State(), intent, version, r)
      ensures res.Success? && res.value.None? <==> ConfigFor(State(), intent, version, r) == Success(None)
      ensures res.Success? && res.value.Some? ==>
        var c := ConfigFor(State(), intent, version, r).value.value;
        res.value.value[0] == System(c.systemPrompt) && |res.value.value| == (if c.includeHistory then 3 else 2)
    {
      var config := GetConfig(intent, version, r);
      match config
      case Failure(e) => res := Failure(e);
      case Success(None) => res := Success(None);
      case Success(Some(c)) => res := Success(Some(BuildTemplate(c)));
    }

    /** `get_chain`: the template composed with `llm`, or `IntentNotFound` when there is no template. */
    method GetChain<L>(intent: string, llm: L, version: Option<string>, r: int) returns (res: Result<Chain<L>, Error>)
      ensures PromptFor(State(), intent, version, r) == Success(None) ==> res == Failure(IntentNotFound(intent))
      ensures forall t :: PromptFor(State(), intent, version, r) == Success(Some(t)) ==> res == Success(Chain(t, llm))
      ensures PromptFor(State(), intent, version, r).Failure? ==> res == Failure(PromptFor(State(), intent, version, r).error)
    {
      var prompt := GetPrompt(intent, version, r);
      match prompt
      case Failure(e) => res := Failure(e);
      case Success(None) => res := Failure(IntentNotFound(intent));
      case Success(Some(t)) => res := Success(Chain(t, llm));
    }

    /**
     * `route`: the primary intent's template (draw `r1`); only when it has
     * none and a default intent is given, the default's (draw `r2`); fails
     * with `NoDefaultIntent` when both give none.
     */
    method Route<L>(intent: string, llm: L, defaultIntent: Option<string>, r1: int, r2: int)
      returns (res: Result<Chain<L>, Error>)
      ensures var primary := PromptFor(State(), intent, None, r1);
        && (primary.Failure? ==> res == Failure(primary.error))
        && (primary.Success? && primary.value.Some? ==> res == Success(Chain(primary.value.value, llm)))
        && (primary == Success(None) && !Truthy(defaultIntent) ==> res == Failure(NoDefaultIntent(intent)))
      ensures var primary := PromptFor(State(), intent, None, r1);
        primary == Success(None) && Truthy(defaultIntent) ==>
          var fallback := PromptFor(State(), defaultIntent.value, None, r2);
          && (fallback.Failure? ==> res == Failure(fallback.error))
          && (fallback.Success? && fallback.value.Some? ==> res == Success(Chain(fallback.value.value, llm)))
          && (fallback == Success(None) ==> res == Failure(NoDefaultIntent(intent)))
    {
      var prompt := GetPrompt(intent, None, r1);
      if prompt == Success(None) && Truthy(defaultIntent) {
        prompt := GetPrompt(defaultIntent.value, None, r2);
      }
      match prompt
      case Failure(e) => res := Failure(e);
      case Success(None) => res := Failure(NoDefaultIntent(intent));
      case Success(Some(t)) => res := Success(Chain(t, llm));
    }

    /**
     * `save`: the target is the argument when it is a non-empty path, else
     * the storage path, else `NoStoragePath`; the data is every intent's
     * records in key and list order.
     */
    function Save(path: Option<string>): (res: Result<(string, Snapshot), Error>)
      reads this
      requires Valid()
      ensures res.Failure? <==> !Truthy(path) && storagePath.None?
      ensures res.Failure? ==> res.error == NoStoragePath
      ensures res.Success? ==> res.value.0 == (if Truthy(path) then path.value else storagePath.value)
      ensures res.Success? ==> res.value.1 == SnapshotOf(State())
    {
      if Truthy(path) then Success((path.value, SnapshotOf(State())))
      else if storagePath.Some? then Success((storagePath.value, SnapshotOf(State())))
      else Failure(NoStoragePath)
    }

    /** `_load_from_file`: nothing without a storage path or an existing file; otherwise `register` every record. */
    method LoadFromFile(stored: Option<Snapshot>)
      requires Valid()
      modifies this
      ensures Valid()
      ensures State() == if storagePath.Some? && stored.Some? then Loaded(old(State()), stored.value) else old(State())
      ensures storagePath == old(storagePath)
    {
      if storagePath.None? || stored.None? {
        return;
      }
      var data := stored.value;
      for i := 0 to |data|
        invariant Valid() && storagePath == old(storagePath)
        invariant State() == Loaded(old(State()), data[..i])
      {
        var configs := data[i].1;
        assert data[..i + 1][..i] == data[..i];
        for j := 0 to |configs|
          invariant Valid() && storagePath == old(storagePath)
          invariant State() == LoadRecords(Loaded(old(State()), data[..i]), configs[..j])
        {
          var c := configs[j];
          assert configs[..j + 1][..j] == configs[..j];
          Register(c.intent, c.name, c.systemPrompt, c.version, c.weight, c.includeHistory, LoadedMetadata(c));
        }
        assert configs[..|configs|] == configs;
      }
      assert data[..|data|] == data;
    }
  }

  /**
   * The body of `get_config` once the intent's list `cs` is found: keep the
   * enabled entries, then the requested version, the sole entry, or the
   * weighted walk over the running weight sum.
   */
  method SelectFrom(cs: seq<PromptConfig>, version: Option<string>, r: int) returns (res: Result<Option<PromptConfig>, Error>)
    ensures res == SelectConfig(cs, version, r)
  {
    var configs := Enabled(cs);
    if configs == [] {
      return Success(None);
    }
    if Truthy(version) {
      for i := 0 to |configs|
        invariant forall j :: 0 <= j < i ==> configs[j].version != version.value
      {
        if configs[i].version == version.value {
          var k := IndexOfVersion(configs, version.value);
          assert k.Some? && !(k.value < i) && !(i < k.value);
          return Success(Some(configs[i]));
        }
      }
      assert !HasVersion(configs, version.value);
      return Success(None);
    }
    if |configs| == 1 {
      return Success(Some(configs[0]));
    }
    if TotalWeight(configs) < 1 {
      return Failure(EmptyDrawRange);
    }
    var current := 0;
    for i := 0 to |configs|
      invariant current == Prefix(configs, i)
      invariant WalkFrom(configs, r, i, current) == WalkFrom(configs, r, 0, 0)
    {
      current := current + configs[i].weight;
      if r <= current {
        return Success(Some(configs[i]));
      }
    }
    return Success(Some(configs[0]));
  }

  const GeneralName: string := "通用助手"
  const GeneralPrompt: string := "你是一个友好的AI助手，请用简洁专业的方式回答用户问题。"
  const PresaleName: string := "售前顾问"
  const PresalePrompt: string :=
    "你是一位专业的售前顾问，负责：\n1. 介绍产品功能和优势\n2. 解答价格和套餐问题\n3. 提供产品对比和推荐\n4. 引导客户完成购买决策\n\n请保持热情专业的态度，突出产品价值。"
  const AftersaleName: string := "售后客服"
  const AftersalePrompt: string :=
    "你是一位耐心的售后客服，负责：\n1. 处理退换货请求\n2. 解答使用问题\n3. 收集用户反馈\n4. 处理投诉和建议\n\n请保持耐心和同理心，优先解决用户问题。"
  const TechnicalName: string := "技术支持"
  const TechnicalPrompt: string :=
    "你是一位专业的技术支持工程师，负责：\n1. 解答技术问题\n2. 提供故障排查指导\n3. 给出代码示例和解决方案\n4. 解释技术概念\n\n请用清晰准确的技术语言回答，必要时提供代码示例。"

  /** The one-entry list `register` stores for a fresh intent with all defaults. */
  function DefaultEntry(intent: string, name: string, systemPrompt: string): seq<PromptConfig>
  {
    [NewConfig(intent, name, systemPrompt, DefaultVersion, DefaultWeight, false, map[])]
  }

  /** Registering a fresh intent with all defaults adds its one-entry list and appends it to the key order. */
  lemma RegisterFresh(reg: Registry, intent: string, name: string, systemPrompt: string)
    requires intent !in reg.prompts
    ensures Registered(reg, NewConfig(intent, name, systemPrompt, DefaultVersion, DefaultWeight, false, map[]))
      == Registry(reg.prompts[intent := DefaultEntry(intent, name, systemPrompt)], reg.order + [intent])
  {
    var c := NewConfig(intent, name, systemPrompt, DefaultVersion, DefaultWeight, false, map[]);
    assert ListOf(reg, intent) + [c] == [c];
    RegisteredAppendsNew(reg, c);
  }

  /** Four fresh, pairwise distinct intents registered with all defaults, in order. */
  lemma RegisterFourFresh(i1: string, n1: string, p1: string, i2: string, n2: string, p2: string,
                          i3: string, n3: string, p3: string, i4: string, n4: string, p4: string)
    requires i1 != i2 && i1 != i3 && i1 != i4 && i2 != i3 && i2 != i4 && i3 != i4
    ensures
      var r1 := Registered(EmptyRegistry, NewConfig(i1, n1, p1, DefaultVersion, DefaultWeight, false, map[]));
      var r2 := Registered(r1, NewConfig(i2, n2, p2, DefaultVersion, DefaultWeight, false, map[]));
      var r3 := Registered(r2, NewConfig(i3, n3, p3, DefaultVersion, DefaultWeight, false, map[]));
      var r4 := Registered(r3, NewConfig(i4, n4, p4, DefaultVersion, DefaultWeight, false, map[]));
      r4 == Registry(map[i1 := DefaultEntry(i1, n1, p1), i2 := DefaultEntry(i2, n2, p2),
                         i3 := DefaultEntry(i3, n3, p3), i4 := DefaultEntry(i4, n4, p4)], [i1, i2, i3, i4])
  {
    var r1 := Registered(EmptyRegistry, NewConfig(i1, n1, p1, DefaultVersion, DefaultWeight, false, map[]));
    RegisterFresh(EmptyRegistry, i1, n1, p1);
    assert r1 == Registry(map[i1 := DefaultEntry(i1, n1, p1)], [i1]);
    var r2 := Registered(r1, NewConfig(i2, n2, p2, DefaultVersion, DefaultWeight, false, map[]));
    RegisterFresh(r1, i2, n2, p2);
    assert r2 == Registry(map[i1 := DefaultEntry(i1, n1, p1), i2 := DefaultEntry(i2, n2, p2)], [i1, i2]);
    var r3 := Registered(r2, NewConfig(i3, n3, p3, DefaultVersion, DefaultWeight, false, map[]));
    RegisterFresh(r2, i3, n3, p3);
    assert r3 == Registry(map[i1 := DefaultEntry(i1, n1, p1), i2 := DefaultEntry(i2, n2, p2),
                              i3 := DefaultEntry(i3, n3, p3)], [i1, i2, i3]);
    RegisterFresh(r3, i4, n4, p4);
  }

  /** `create_default_manager`: four intents, each with one default configuration, in this order. */
  method CreateDefaultManager() returns (manager: PromptManager)
    ensures fresh(manager) && manager.Valid() && manager.storagePath.None?
    ensures manager.ListIntents() == ["general", "presale", "aftersale", "technical"]
    ensures manager.prompts == map[
      "general" := DefaultEntry("general", GeneralName, GeneralPrompt),
      "presale" := DefaultEntry("presale", PresaleName, PresalePrompt),
      "aftersale" := DefaultEntry("aftersale", AftersaleName, AftersalePrompt),
      "technical" := DefaultEntry("technical", TechnicalName, TechnicalPrompt)]
  {
    manager := new PromptManager(None, None);
    manager.Register("general", GeneralName, GeneralPrompt);
    manager.Register("presale", PresaleName, PresalePrompt);
    manager.Register("aftersale", AftersaleName, AftersalePrompt);
    manager.Register("technical", TechnicalName, TechnicalPrompt);
    RegisterFourFresh("general", GeneralName, GeneralPrompt, "presale", PresaleName, PresalePrompt,
                      "aftersale", AftersaleName, AftersalePrompt, "technical", TechnicalName, TechnicalPrompt);
  }
}
