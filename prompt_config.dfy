/**
 * The prompt configuration record of the prompt manager and the functions
 * over one intent's ordered list of configurations: version lookup,
 * replace-or-append, removal of a version, the `enabled` filter, the
 * cumulative-weight walk of the A/B selection, and the message template
 * built from a configuration.
 */
module PromptConfigs {
  import opened Common

  /** A JSON-like value, as stored in a configuration's metadata. */
  datatype Value =
    | Null
    | Boolean(b: bool)
    | Integer(n: int)
    | Text(s: string)
    | Array(elems: seq<Value>)
    | Object(fields: map<string, Value>)

  /** One versioned, weighted prompt definition belonging to an intent. */
  datatype PromptConfig = PromptConfig(
    intent: string,
    name: string,
    systemPrompt: string,
    version: string,
    weight: int,
    enabled: bool,
    includeHistory: bool,
    metadata: map<string, Value>)

  /** Errors the manager raises (all are `ValueError` in `prompt_manager.py`). */
  datatype Error =
    | EmptyDrawRange            // random.randint(1, total) with total < 1
    | IntentNotFound(intent: string)
    | NoDefaultIntent(intent: string)
    | NoStoragePath

  const DefaultVersion: string := "1.0"
  const DefaultWeight: int := 100

  /** The configuration `register` builds: always enabled, the extra keyword arguments as metadata. */
  function NewConfig(intent: string, name: string, systemPrompt: string, version: string,
                     weight: int, includeHistory: bool, metadata: map<string, Value>): PromptConfig
  {
    PromptConfig(intent, name, systemPrompt, version, weight, true, includeHistory, metadata)
  }

  // ---------------------------------------------------------------------------
  // Versions
  // ---------------------------------------------------------------------------

  ghost predicate DistinctVersions(cs: seq<PromptConfig>)
  {
    forall i, j :: 0 <= i < j < |cs| ==> cs[i].version != cs[j].version
  }

  ghost predicate HasVersion(cs: seq<PromptConfig>, v: string)
  {
    exists i :: 0 <= i < |cs| && cs[i].version == v
  }

  /** The index of the first configuration with version `v`, if any. */
  function IndexOfVersion(cs: seq<PromptConfig>, v: string): (r: Option<nat>)
    ensures r.Some? ==> r.value < |cs| && cs[r.value].version == v
    ensures r.Some? ==> forall j :: 0 <= j < r.value ==> cs[j].version != v
    ensures r.None? <==> !HasVersion(cs, v)
  {
    if cs == [] then None
    else if cs[0].version == v then Some(0)
    else match IndexOfVersion(cs[1..], v)
      case None => (assert forall j :: 1 <= j < |cs| ==> cs[j] == cs[1..][j - 1]; None)
      case Some(k) => Some(k + 1)
  }

  /** The list after registering `c`: the first entry with the same version is replaced, otherwise `c` is appended. */
  function Upsert(cs: seq<PromptConfig>, c: PromptConfig): seq<PromptConfig>
  {
    match IndexOfVersion(cs, c.version)
    case Some(i) => cs[i := c]
    case None => cs + [c]
  }

  /** Registering an existing version overwrites the first entry with that version, at its index. */
  lemma UpsertReplacesInPlace(cs: seq<PromptConfig>, c: PromptConfig, i: nat)
    requires i < |cs| && cs[i].version == c.version
    requires forall j :: 0 <= j < i ==> cs[j].version != c.version
    ensures |Upsert(cs, c)| == |cs|
    ensures Upsert(cs, c)[i] == c
    ensures forall j :: 0 <= j < |cs| && j != i ==> Upsert(cs, c)[j] == cs[j]
  {
    var k := IndexOfVersion(cs, c.version);
    assert k.Some?;
    assert !(k.value < i) && !(i < k.value);
  }

  /** Registering a version the list does not hold appends it at the end. */
  lemma UpsertAppendsNew(cs: seq<PromptConfig>, c: PromptConfig)
    requires !HasVersion(cs, c.version)
    ensures Upsert(cs, c) == cs + [c]
  {
  }

  /** Registering keeps the versions of one intent pairwise distinct, and the new entry is present. */
  lemma UpsertKeepsVersionsDistinct(cs: seq<PromptConfig>, c: PromptConfig)
    requires DistinctVersions(cs)
    ensures DistinctVersions(Upsert(cs, c))
    ensures c in Upsert(cs, c)
  {
    var u := Upsert(cs, c);
    match IndexOfVersion(cs, c.version)
    case Some(i) =>
      assert u[i] == c;
      forall a, b | 0 <= a < b < |u| ensures u[a].version != u[b].version {
        if a == i {
          assert u[b] == cs[b];
        } else if b == i {
          assert u[a] == cs[a];
        }
      }
    case None =>
      assert u[|cs|] == c;
      forall a, b | 0 <= a < b < |u| ensures u[a].version != u[b].version {
        if b == |cs| {
          assert u[a] == cs[a];
        }
      }
  }

  /** The entries of `cs` whose version is not `v`, in order (`unregister`'s list comprehension). */
  function WithoutVersion(cs: seq<PromptConfig>, v: string): seq<PromptConfig>
  {
    if cs == [] then []
    else (if cs[0].version != v then [cs[0]] else []) + WithoutVersion(cs[1..], v)
  }

  /** The filtered list holds exactly the entries whose version is not `v`. */
  lemma {:induction false} WithoutVersionMembers(cs: seq<PromptConfig>, v: string)
    ensures forall c :: c in WithoutVersion(cs, v) <==> c in cs && c.version != v
  {
    if cs != [] {
      WithoutVersionMembers(cs[1..], v);
      assert cs == [cs[0]] + cs[1..];
    }
  }

  lemma {:induction false} WithoutVersionAppend(a: seq<PromptConfig>, b: seq<PromptConfig>, v: string)
    ensures WithoutVersion(a + b, v) == WithoutVersion(a, v) + WithoutVersion(b, v)
  {
    if a == [] {
      assert a + b == b;
    } else {
      var ab := a + b;
      assert ab != [] && ab[0] == a[0] && ab[1..] == a[1..] + b;
      var h := if a[0].version != v then [a[0]] else [];
      var left, right := WithoutVersion(a[1..], v), WithoutVersion(b, v);
      assert WithoutVersion(ab, v) == h + WithoutVersion(ab[1..], v);
      WithoutVersionAppend(a[1..], b, v);
      assert WithoutVersion(a, v) == h + left;
      assert h + (left + right) == (h + left) + right;
    }
  }

  lemma {:induction false} WithoutAbsentVersion(cs: seq<PromptConfig>, v: string)
    requires !HasVersion(cs, v)
    ensures WithoutVersion(cs, v) == cs
  {
    if cs != [] {
      var tail := cs[1..];
      forall j | 0 <= j < |tail| ensures tail[j].version != v {
        assert tail[j] == cs[j + 1];
      }
      WithoutAbsentVersion(tail, v);
    }
  }

  lemma WithoutVersionAround(front: seq<PromptConfig>, c: PromptConfig, back: seq<PromptConfig>)
    requires !HasVersion(front, c.version) && !HasVersion(back, c.version)
    ensures WithoutVersion(front + [c] + back, c.version) == front + back
  {
    var v := c.version;
    assert WithoutVersion([c], v) == [];
    calc {
      WithoutVersion(front + [c] + back, v);
      { WithoutVersionAppend(front + [c], back, v); }
      WithoutVersion(front + [c], v) + WithoutVersion(back, v);
      { WithoutVersionAppend(front, [c], v); }
      WithoutVersion(front, v) + [] + WithoutVersion(back, v);
      { WithoutAbsentVersion(front, v); WithoutAbsentVersion(back, v); }
      front + [] + back;
      front + back;
    }
  }

  /** With distinct versions, removing a present version drops exactly that entry and keeps the others in order. */
  lemma WithoutVersionRemovesEntry(cs: seq<PromptConfig>, i: nat)
    requires DistinctVersions(cs) && i < |cs|
    ensures WithoutVersion(cs, cs[i].version) == cs[..i] + cs[i + 1..]
  {
    var front, back, c := cs[..i], cs[i + 1..], cs[i];
    assert !HasVersion(front, c.version) by {
      forall j | 0 <= j < |front| ensures front[j].version != c.version {
        assert front[j] == cs[j];
      }
    }
    assert !HasVersion(back, c.version) by {
      forall j | 0 <= j < |back| ensures back[j].version != c.version {
        assert back[j] == cs[i + 1 + j];
      }
    }
    calc {
      WithoutVersion(cs, c.version);
      { assert cs == front + [c] + back; }
      WithoutVersion(front + [c] + back, c.version);
      { WithoutVersionAround(front, c, back); }
      front + back;
    }
  }

  // ---------------------------------------------------------------------------
  // The enabled filter
  // ---------------------------------------------------------------------------

  /** The enabled entries of `cs`, in order. */
  function Enabled(cs: seq<PromptConfig>): (r: seq<PromptConfig>)
    ensures |r| <= |cs|
  {
    if cs == [] then []
    else (if cs[0].enabled then [cs[0]] else []) + Enabled(cs[1..])
  }

  /** The filtered list holds exactly the enabled entries. */
  lemma {:induction false} EnabledMembers(cs: seq<PromptConfig>)
    ensures forall c :: c in Enabled(cs) <==> c in cs && c.enabled
  {
    if cs != [] {
      EnabledMembers(cs[1..]);
      assert cs == [cs[0]] + cs[1..];
    }
  }

  lemma {:induction false} EnabledAppend(a: seq<PromptConfig>, b: seq<PromptConfig>)
    ensures Enabled(a + b) == Enabled(a) + Enabled(b)
  {
    if a != [] {
      assert (a + b)[0] == a[0];
      assert (a + b)[1..] == a[1..] + b;
      EnabledAppend(a[1..], b);
      var h := if a[0].enabled then [a[0]] else [];
      calc {
        Enabled(a + b);
        h + Enabled(a[1..] + b);
        h + (Enabled(a[1..]) + Enabled(b));
        (h + Enabled(a[1..])) + Enabled(b);
        Enabled(a) + Enabled(b);
      }
    } else {
      assert a + b == b;
    }
  }

  /** Filtering by `enabled` and removing a version commute. */
  lemma {:induction false} EnabledWithoutVersion(cs: seq<PromptConfig>, v: string)
    ensures Enabled(WithoutVersion(cs, v)) == WithoutVersion(Enabled(cs), v)
  {
    if cs != [] {
      EnabledWithoutVersion(cs[1..], v);
      var h := if cs[0].version != v then [cs[0]] else [];
      EnabledAppend(h, WithoutVersion(cs[1..], v));
      var e := if cs[0].enabled then [cs[0]] else [];
      WithoutVersionAppend(e, Enabled(cs[1..]), v);
    }
  }

  // ---------------------------------------------------------------------------
  // Weighted A/B selection
  // ---------------------------------------------------------------------------

  /** The sum of the weights of the first `n` entries. */
  function Prefix(cs: seq<PromptConfig>, n: nat): int
    requires n <= |cs|
  {
    if n == 0 then 0 else Prefix(cs, n - 1) + cs[n - 1].weight
  }

  /** `sum(c.weight for c in configs)`. */
  function TotalWeight(cs: seq<PromptConfig>): int
  {
    Prefix(cs, |cs|)
  }

  /**
   * `get_config`'s selection loop from index `i` with running sum `current`:
   * add the entry's weight, and stop at the first entry where `r <= current`.
   * `None` means the loop ran to its end.
   */
  function WalkFrom(cs: seq<PromptConfig>, r: int, i: nat, current: int): (k: Option<nat>)
    requires i <= |cs|
    ensures k.Some? ==> i <= k.value < |cs|
    decreases |cs| - i
  {
    if i == |cs| then None
    else if r <= current + cs[i].weight then Some(i)
    else WalkFrom(cs, r, i + 1, current + cs[i].weight)
  }

  lemma {:induction false} WalkFromFindsFirstReaching(cs: seq<PromptConfig>, r: int, i: nat, current: int)
    requires i <= |cs| && current == Prefix(cs, i) && current < r <= TotalWeight(cs)
    requires forall j :: 1 <= j <= i ==> Prefix(cs, j) < r
    ensures var k := WalkFrom(cs, r, i, current);
      k.Some? && r <= Prefix(cs, k.value + 1) && forall j :: 1 <= j <= k.value ==> Prefix(cs, j) < r
    decreases |cs| - i
  {
    assert i < |cs|;
    if r > current + cs[i].weight {
      WalkFromFindsFirstReaching(cs, r, i + 1, current + cs[i].weight);
    }
  }

  /**
   * For a draw `1 <= r <= total` the walk never runs off the end (so the
   * `return configs[0]` fallback of `get_config` is unreachable): it stops at the
   * first entry whose prefix weight sum reaches `r`, and that entry has a
   * positive weight, so a zero-weight entry is never chosen.
   */
  lemma WeightedChoiceIsFirstReaching(cs: seq<PromptConfig>, r: int)
    requires 1 <= r <= TotalWeight(cs)
    ensures var k := WalkFrom(cs, r, 0, 0);
      && k.Some?
      && r <= Prefix(cs, k.value + 1)
      && (forall j :: 1 <= j <= k.value ==> Prefix(cs, j) < r)
      && cs[k.value].weight > 0
  {
    WalkFromFindsFirstReaching(cs, r, 0, 0);
    var k := WalkFrom(cs, r, 0, 0).value;
    assert Prefix(cs, k) < r by {
      if k > 0 { } else { assert Prefix(cs, 0) == 0; }
    }
  }

  /** `get_config` on one intent's list, for a random draw `r` (used only by the weighted branch). */
  function SelectConfig(cs: seq<PromptConfig>, version: Option<string>, r: int): Result<Option<PromptConfig>, Error>
  {
    var configs := Enabled(cs);
    if configs == [] then Success(None)
    else if Truthy(version) then
      match IndexOfVersion(configs, version.value)
      case Some(i) => Success(Some(configs[i]))
      case None => Success(None)
    else if |configs| == 1 then Success(Some(configs[0]))
    else if TotalWeight(configs) < 1 then Failure(EmptyDrawRange)
    else
      match WalkFrom(configs, r, 0, 0)
      case Some(k) => Success(Some(configs[k]))
      case None => Success(Some(configs[0]))
  }

  /** Whatever `get_config` returns is an enabled member of the list; a disabled entry is never returned. */
  lemma SelectedIsEnabledMember(cs: seq<PromptConfig>, version: Option<string>, r: int)
    ensures var res := SelectConfig(cs, version, r);
      res.Success? && res.value.Some? ==> res.value.value in cs && res.value.value.enabled
  {
    EnabledMembers(cs);
  }

  /** With a requested version: the enabled entry with that version, and absent exactly when there is none. */
  lemma SelectByVersion(cs: seq<PromptConfig>, v: string, r: int)
    requires v != ""
    ensures var res := SelectConfig(cs, Some(v), r);
      && res.Success?
      && (res.value.None? <==> !HasVersion(Enabled(cs), v))
      && (res.value.Some? ==> res.value.value.version == v && res.value.value.enabled && res.value.value in cs)
  {
    EnabledMembers(cs);
  }

  /** With no version (or `""`) and exactly one enabled entry, that entry is returned without a draw. */
  lemma SelectSoleEnabled(cs: seq<PromptConfig>, version: Option<string>, r: int)
    requires !Truthy(version) && |Enabled(cs)| == 1
    ensures SelectConfig(cs, version, r) == Success(Some(Enabled(cs)[0]))
  {
  }

  /** `get_config` raises (randint's empty range) exactly when a draw is needed and the enabled weights sum below 1. */
  lemma SelectFailsIffEmptyRange(cs: seq<PromptConfig>, version: Option<string>, r: int)
    ensures SelectConfig(cs, version, r).Failure? <==>
      !Truthy(version) && |Enabled(cs)| > 1 && TotalWeight(Enabled(cs)) < 1
  {
  }

  /**
   * Weighted selection: with several enabled entries and a draw in range,
   * the result is the first enabled entry (in list order) whose prefix
   * weight sum reaches `r`, and its weight is positive.
   */
  lemma SelectWeighted(cs: seq<PromptConfig>, version: Option<string>, r: int)
    requires !Truthy(version) && |Enabled(cs)| > 1
    requires 1 <= r <= TotalWeight(Enabled(cs))
    ensures var configs := Enabled(cs);
      exists k :: 0 <= k < |configs|
        && SelectConfig(cs, version, r) == Success(Some(configs[k]))
        && r <= Prefix(configs, k + 1)
        && (forall j :: 1 <= j <= k ==> Prefix(configs, j) < r)
        && configs[k].weight > 0
  {
    var configs := Enabled(cs);
    WeightedChoiceIsFirstReaching(configs, r);
    var k := WalkFrom(configs, r, 0, 0).value;
    assert SelectConfig(cs, version, r) == Success(Some(configs[k]));
  }

  /** After removing version `v`, asking for `v` finds nothing. */
  lemma SelectRemovedVersion(cs: seq<PromptConfig>, v: string, r: int)
    requires v != ""
    ensures SelectConfig(WithoutVersion(cs, v), Some(v), r) == Success(None)
  {
    var configs := Enabled(WithoutVersion(cs, v));
    EnabledMembers(WithoutVersion(cs, v));
    WithoutVersionMembers(cs, v);
    forall j | 0 <= j < |configs| ensures configs[j].version != v {
      assert configs[j] in WithoutVersion(cs, v);
    }
  }

  /** Removing version `v` leaves the lookup of every other version unchanged. */
  lemma SelectOtherVersion(cs: seq<PromptConfig>, v: string, w: string, r: int)
    requires w != "" && w != v
    ensures SelectConfig(WithoutVersion(cs, v), Some(w), r) == SelectConfig(cs, Some(w), r)
  {
    EnabledWithoutVersion(cs, v);
    FirstVersionSkipsRemoved(Enabled(cs), v, w);
  }

  lemma {:induction false} FirstVersionSkipsRemoved(cs: seq<PromptConfig>, v: string, w: string)
    requires w != v
    ensures var a := IndexOfVersion(WithoutVersion(cs, v), w);
      var b := IndexOfVersion(cs, w);
      a.Some? == b.Some? && (a.Some? ==> WithoutVersion(cs, v)[a.value] == cs[b.value])
  {
    if cs != [] {
      FirstVersionSkipsRemoved(cs[1..], v, w);
      var rest := WithoutVersion(cs[1..], v);
      var ra, rb := IndexOfVersion(rest, w), IndexOfVersion(cs[1..], w);
      if cs[0].version == v {
        assert WithoutVersion(cs, v) == rest;
        assert IndexOfVersion(cs, w) == if rb.Some? then Some(rb.value + 1) else None;
      } else {
        var wv := [cs[0]] + rest;
        assert WithoutVersion(cs, v) == wv;
        assert wv[0] == cs[0] && wv[1..] == rest;
        if cs[0].version != w {
          assert IndexOfVersion(wv, w) == if ra.Some? then Some(ra.value + 1) else None;
          assert IndexOfVersion(cs, w) == if rb.Some? then Some(rb.value + 1) else None;
        }
      }
    }
  }

  // ---------------------------------------------------------------------------
  // The message template
  // ---------------------------------------------------------------------------

  /** One entry of a chat template: a system message, a history slot, or a human message. */
  datatype Message = System(text: string) | Placeholder(variableName: string) | Human(text: string)

  type Template = seq<Message>

  const HistoryVariable: string := "history"
  const QuestionSlot: string := "{question}"

  /** The template `get_prompt` builds: system prompt, optional history slot, then the question. */
  function BuildTemplate(c: PromptConfig): (t: Template)
    ensures |t| == if c.includeHistory then 3 else 2
    ensures t[0] == System(c.systemPrompt)
    ensures t[|t| - 1] == Human(QuestionSlot)
    ensures c.includeHistory ==> t[1] == Placeholder(HistoryVariable)
  {
    [System(c.systemPrompt)]
      + (if c.includeHistory then [Placeholder(HistoryVariable)] else [])
      + [Human(QuestionSlot)]
  }

  /** `prompt | llm`: the template composed with an opaque model object. */
  datatype Chain<L> = Chain(prompt: Template, llm: L)
}
