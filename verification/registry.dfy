/** The metric-name registry of the reporter: three maps that claim root names,
    name+suffix combinations and name+tags instance keys, updated by a two-phase
    check-then-commit registration (`GetMetric`). */
module Registry {
  import opened Wrappers

  /** The declared type `T` of a `GetMetric<T>` call, identified by its full name. */
  datatype MetricType = MetricType(fullName: string)

  /** A metric instance as the registry sees it. `ident` stands for object identity,
      `kind` for the instance's class, `suffixes` for the type's name suffixes and
      `serializedTags` for its canonical tag string. */
  datatype Metric = Metric(ident: nat, kind: MetricType, name: string, suffixes: seq<string>, serializedTags: string)

  /** The three registry maps: root name to type, name+suffix to root name,
      and name+serialized tags to the stored instance. */
  datatype Registry = Registry(
    rootNameToType: map<string, MetricType>,
    nameAndSuffixToRootName: map<string, string>,
    rootNameAndTagsToMetric: map<string, Metric>)

  const EmptyRegistry := Registry(map[], map[], map[])

  /** The exceptions a registration can throw. `owner` is the type of the root that
      already claims the name; it is looked up through two maps and is `None` only
      when the registry does not satisfy `Valid`. `InvalidCast` is the cast of an
      existing instance to the requested type failing, thrown after the commit. */
  datatype RegistryError =
    | TypeConflict(name: string, requested: MetricType, existing: MetricType)
    | SuffixInUse(name: string, requested: MetricType, owner: Option<MetricType>)
    | InvalidName(name: string)
    | InvalidCast(nameAndTags: string, requested: MetricType, actual: MetricType)
  {
    function Name(): string {
      match this
      case TypeConflict(n, _, _) => n
      case SuffixInUse(n, _, _) => n
      case InvalidName(n) => n
      case InvalidCast(n, _, _) => n
    }
  }

  /** The registry after a registration attempt, and what `GetMetric` returned or threw. */
  datatype Registration = Registration(registry: Registry, result: Result<Metric, RegistryError>)

  /** Every suffix claim points to a claimed root, and every stored instance is keyed by
      its own name followed by its serialized tags, under a claimed root. */
  ghost predicate Valid(reg: Registry) {
    && (forall ns :: ns in reg.nameAndSuffixToRootName ==>
          reg.nameAndSuffixToRootName[ns] in reg.rootNameToType)
    && (forall key :: key in reg.rootNameAndTagsToMetric ==>
          && reg.rootNameAndTagsToMetric[key].name in reg.rootNameToType
          && key == reg.rootNameAndTagsToMetric[key].name + reg.rootNameAndTagsToMetric[key].serializedTags)
  }

  /** The type of the root that claims `ns` as one of its names, used in error messages. */
  function OwnerType(reg: Registry, ns: string): (r: Option<MetricType>)
    ensures Valid(reg) && ns in reg.nameAndSuffixToRootName ==> r.Some?
  {
    if ns in reg.nameAndSuffixToRootName && reg.nameAndSuffixToRootName[ns] in reg.rootNameToType
    then Some(reg.rootNameToType[reg.nameAndSuffixToRootName[ns]])
    else None
  }

  /** `name + s` is a valid metric name that is free or already claimed by `name` itself. */
  predicate SuffixClaimable(reg: Registry, name: string, s: string, isValid: string -> bool) {
    && isValid(name + s)
    && (name + s !in reg.nameAndSuffixToRootName || reg.nameAndSuffixToRootName[name + s] == name)
  }

  /** The condition of the first guard of registration: the name is already in use as a
      claimed name, and it is not a root of the requested type. */
  predicate RootNameTaken(reg: Registry, name: string, t: MetricType) {
    name in reg.nameAndSuffixToRootName
    && (name !in reg.rootNameToType || reg.rootNameToType[name] != t)
  }

  /** Every way registration of `t` at the (prefixed) `name` with `suffixes` can fail. */
  predicate Rejected(reg: Registry, name: string, t: MetricType, suffixes: seq<string>, isValid: string -> bool) {
    || RootNameTaken(reg, name, t)
    || (exists i :: 0 <= i < |suffixes| && !SuffixClaimable(reg, name, suffixes[i], isValid))
  }

  /** An instance is stored under `key` and it is not a `t`, so casting it to `t` throws. */
  predicate CastFails(reg: Registry, key: string, t: MetricType) {
    key in reg.rootNameAndTagsToMetric && reg.rootNameAndTagsToMetric[key].kind != t
  }

  /** The first guard: the error thrown when the root name is taken, if it is. */
  function RootNameCheck(reg: Registry, name: string, t: MetricType): (r: Option<RegistryError>)
    ensures r.Some? <==> RootNameTaken(reg, name, t)
    ensures r.Some? ==> r.value.Name() == name
    ensures r.Some? && name in reg.rootNameToType ==> r.value == TypeConflict(name, t, reg.rootNameToType[name])
  {
    if RootNameTaken(reg, name, t) then
      if name in reg.rootNameToType then Some(TypeConflict(name, t, reg.rootNameToType[name]))
      else Some(SuffixInUse(name, t, OwnerType(reg, name)))
    else None
  }

  /** The first pass over the suffixes: the error for the first suffix that is not
      claimable, checking validity of the name before ownership. */
  function SuffixCheck(reg: Registry, name: string, t: MetricType, suffixes: seq<string>, isValid: string -> bool)
    : (r: Option<RegistryError>)
    ensures r.None? <==> forall i :: 0 <= i < |suffixes| ==> SuffixClaimable(reg, name, suffixes[i], isValid)
    ensures r.Some? ==> exists i :: 0 <= i < |suffixes| && FirstUnclaimable(reg, name, suffixes, isValid, i, r.value)
    decreases |suffixes|
  {
    if |suffixes| == 0 then None
    else
      var ns := name + suffixes[0];
      if !isValid(ns) then
        assert FirstUnclaimable(reg, name, suffixes, isValid, 0, InvalidName(ns));
        Some(InvalidName(ns))
      else if ns in reg.nameAndSuffixToRootName && reg.nameAndSuffixToRootName[ns] != name then
        assert FirstUnclaimable(reg, name, suffixes, isValid, 0, SuffixInUse(ns, t, OwnerType(reg, ns)));
        Some(SuffixInUse(ns, t, OwnerType(reg, ns)))
      else
        var r := SuffixCheck(reg, name, t, suffixes[1..], isValid);
        assert r.None? ==> forall i :: 0 <= i < |suffixes| ==> SuffixClaimable(reg, name, suffixes[i], isValid) by {
          if r.None? {
            forall i | 0 <= i < |suffixes| ensures SuffixClaimable(reg, name, suffixes[i], isValid) {
              if i > 0 { assert suffixes[i] == suffixes[1..][i - 1]; }
            }
          }
        }
        assert r.Some? ==> exists i :: 0 <= i < |suffixes| && FirstUnclaimable(reg, name, suffixes, isValid, i, r.value) by {
          if r.Some? {
            var k :| 0 <= k < |suffixes[1..]| && FirstUnclaimable(reg, name, suffixes[1..], isValid, k, r.value);
            assert FirstUnclaimable(reg, name, suffixes, isValid, k + 1, r.value);
          }
        }
        r
  }

  /** Suffix `i` is the first one that cannot be claimed, and `e` is the error it raises. */
  predicate FirstUnclaimable(reg: Registry, name: string, suffixes: seq<string>, isValid: string -> bool,
                             i: int, e: RegistryError)
    requires 0 <= i < |suffixes|
  {
    && (forall j :: 0 <= j < i ==> SuffixClaimable(reg, name, suffixes[j], isValid))
    && !SuffixClaimable(reg, name, suffixes[i], isValid)
    && e.Name() == name + suffixes[i]
    && (e.InvalidName? <==> !isValid(name + suffixes[i]))
    && (e.SuffixInUse? <==> isValid(name + suffixes[i]))
  }

  /** Names `name + s` for every suffix `s`. */
  ghost function ClaimedNames(name: string, suffixes: seq<string>): set<string> {
    set i | 0 <= i < |suffixes| :: name + suffixes[i]
  }

  /** The second pass over the suffixes: claim `name + s` for `name`, one suffix at a time. */
  function ClaimSuffixes(m: map<string, string>, name: string, suffixes: seq<string>): (r: map<string, string>)
    ensures r.Keys == m.Keys + ClaimedNames(name, suffixes)
    ensures forall k :: k in ClaimedNames(name, suffixes) ==> r[k] == name
    ensures forall k :: k in m && k !in ClaimedNames(name, suffixes) ==> r[k] == m[k]
    decreases |suffixes|
  {
    if |suffixes| == 0 then m
    else
      var r := ClaimSuffixes(m[name + suffixes[0] := name], name, suffixes[1..]);
      assert ClaimedNames(name, suffixes) == {name + suffixes[0]} + ClaimedNames(name, suffixes[1..]) by {
        forall k | k in ClaimedNames(name, suffixes)
          ensures k in {name + suffixes[0]} + ClaimedNames(name, suffixes[1..])
        {
          var i :| 0 <= i < |suffixes| && k == name + suffixes[i];
          if i > 0 { assert suffixes[i] == suffixes[1..][i - 1]; }
        }
        forall k | k in ClaimedNames(name, suffixes[1..])
          ensures k in ClaimedNames(name, suffixes)
        {
          var i :| 0 <= i < |suffixes[1..]| && k == name + suffixes[1..][i];
          assert suffixes[1..][i] == suffixes[i + 1];
        }
      }
      r
  }

  /** The rejection check, then the commit, of `GetMetric<T>(name, metric)`: the name is
      prefixed, both checks run before any map is written, and an existing instance with
      the same name and tags is returned instead of `metric`, cast to `T` after the maps
      have been written. A rejected registration changes nothing; one that passes the
      checks commits, and then throws if the cast fails. */
  function GetMetric(reg: Registry, prefix: string, isValid: string -> bool,
                     t: MetricType, name: string, metric: Metric): (r: Registration)
    ensures r.result.Failure? <==>
              || Rejected(reg, prefix + name, t, metric.suffixes, isValid)
              || CastFails(reg, prefix + name + metric.serializedTags, t)
    ensures Rejected(reg, prefix + name, t, metric.suffixes, isValid) ==>
              r.result.Failure? && !r.result.error.InvalidCast? && r.registry == reg
    ensures !Rejected(reg, prefix + name, t, metric.suffixes, isValid) ==> r == Commit(reg, t, prefix + name, metric)
  {
    var fullName := prefix + name;
    var rootError := RootNameCheck(reg, fullName, t);
    var err := if rootError.Some? then rootError else SuffixCheck(reg, fullName, t, metric.suffixes, isValid);
    if err.Some? then Registration(reg, Failure(err.value))
    else Commit(reg, t, fullName, metric)
  }

  /** The commit phase: claim the suffixes and the root, then store or look up the
      instance. The claims are written whether or not the cast of an existing instance
      then fails. */
  function Commit(reg: Registry, t: MetricType, fullName: string, metric: Metric): (r: Registration)
    ensures r.result.Failure? <==> CastFails(reg, fullName + metric.serializedTags, t)
    ensures r.result.Failure? ==>
              var key := fullName + metric.serializedTags;
              r.result.error == InvalidCast(key, t, reg.rootNameAndTagsToMetric[key].kind)
    ensures forall k :: k in ClaimedNames(fullName, metric.suffixes) ==>
              k in r.registry.nameAndSuffixToRootName && r.registry.nameAndSuffixToRootName[k] == fullName
    ensures forall k :: k in reg.nameAndSuffixToRootName && k !in ClaimedNames(fullName, metric.suffixes) ==>
              k in r.registry.nameAndSuffixToRootName && r.registry.nameAndSuffixToRootName[k] == reg.nameAndSuffixToRootName[k]
    ensures r.registry.nameAndSuffixToRootName.Keys == reg.nameAndSuffixToRootName.Keys + ClaimedNames(fullName, metric.suffixes)
    ensures r.registry.rootNameToType == reg.rootNameToType[fullName := t]
    ensures var key := fullName + metric.serializedTags;
            key in reg.rootNameAndTagsToMetric ==>
              && r.registry.rootNameAndTagsToMetric == reg.rootNameAndTagsToMetric
              && (r.result.Success? ==> r.result.value == reg.rootNameAndTagsToMetric[key])
    ensures var key := fullName + metric.serializedTags;
            key !in reg.rootNameAndTagsToMetric ==>
              && r.result.value == metric.(name := fullName)
              && r.registry.rootNameAndTagsToMetric == reg.rootNameAndTagsToMetric[key := r.result.value]
  {
    var claimed := Registry(reg.rootNameToType[fullName := t],
                            ClaimSuffixes(reg.nameAndSuffixToRootName, fullName, metric.suffixes),
                            reg.rootNameAndTagsToMetric);
    var key := fullName + metric.serializedTags;
    if key in reg.rootNameAndTagsToMetric then
      var existing := reg.rootNameAndTagsToMetric[key];
      if existing.kind != t then Registration(claimed, Failure(InvalidCast(key, t, existing.kind)))
      else Registration(claimed, Success(existing))
    else
      var stored := metric.(name := fullName);
      Registration(claimed.(rootNameAndTagsToMetric := reg.rootNameAndTagsToMetric[key := stored]), Success(stored))
  }

  /** Every registration keeps the registry's invariant, including one that throws
      after the commit. */
  lemma GetMetricPreservesValid(reg: Registry, prefix: string, isValid: string -> bool,
                                t: MetricType, name: string, metric: Metric)
    requires Valid(reg)
    ensures Valid(GetMetric(reg, prefix, isValid, t, name, metric).registry)
  {
  }

  /** A registration that passes the checks claims every name+suffix and the root for
      `t`, whether or not it then throws, and every other claim keeps its owner. It
      returns the instance already stored under the prefixed name and the tags when that
      one is a `t`, throws when it is not, and otherwise stores and returns `metric`
      renamed to the prefixed name, next to the instances already stored. */
  lemma GetMetricClaims(reg: Registry, prefix: string, isValid: string -> bool,
                        t: MetricType, name: string, metric: Metric)
    ensures var r := GetMetric(reg, prefix, isValid, t, name, metric);
            var fullName := prefix + name;
            var key := fullName + metric.serializedTags;
            var instances := reg.rootNameAndTagsToMetric;
            !Rejected(reg, fullName, t, metric.suffixes, isValid) ==>
              && (forall i :: 0 <= i < |metric.suffixes| ==>
                    r.registry.nameAndSuffixToRootName[fullName + metric.suffixes[i]] == fullName)
              && (forall k :: k in reg.nameAndSuffixToRootName && k !in ClaimedNames(fullName, metric.suffixes) ==>
                    r.registry.nameAndSuffixToRootName[k] == reg.nameAndSuffixToRootName[k])
              && r.registry.rootNameToType == reg.rootNameToType[fullName := t]
              && (key in instances ==>
                    && r.registry.rootNameAndTagsToMetric == instances
                    && (r.result.Success? <==> instances[key].kind == t)
                    && (r.result.Success? ==> r.result.value == instances[key]))
              && (key !in instances ==>
                    && r.result == Success(metric.(name := fullName))
                    && r.registry.rootNameAndTagsToMetric == instances[key := metric.(name := fullName)])
  {
    var fullName := prefix + name;
    var r := GetMetric(reg, prefix, isValid, t, name, metric);
    if !Rejected(reg, fullName, t, metric.suffixes, isValid) {
      forall i | 0 <= i < |metric.suffixes|
        ensures r.registry.nameAndSuffixToRootName[fullName + metric.suffixes[i]] == fullName
      {
        assert fullName + metric.suffixes[i] in ClaimedNames(fullName, metric.suffixes);
      }
    }
  }

  /** Registering the same name, type and tags twice with instances of that type: the
      second call returns the instance the first call returned and leaves the registry as
      the first call left it. */
  lemma GetMetricIdempotent(reg: Registry, prefix: string, isValid: string -> bool,
                            t: MetricType, name: string, metric: Metric, again: Metric)
    requires Valid(reg)
    requires metric.kind == t
    requires again.suffixes == metric.suffixes && again.serializedTags == metric.serializedTags
    requires GetMetric(reg, prefix, isValid, t, name, metric).result.Success?
    ensures var first := GetMetric(reg, prefix, isValid, t, name, metric);
            var second := GetMetric(first.registry, prefix, isValid, t, name, again);
            second == Registration(first.registry, first.result)
  {
    var fullName := prefix + name;
    var first := GetMetric(reg, prefix, isValid, t, name, metric);
    var reg1 := first.registry;
    GetMetricClaims(reg, prefix, isValid, t, name, metric);
    assert !Rejected(reg1, fullName, t, again.suffixes, isValid) by {
      if fullName in reg1.nameAndSuffixToRootName {
        assert reg1.rootNameToType[fullName] == t;
      }
      forall i | 0 <= i < |again.suffixes| ensures SuffixClaimable(reg1, fullName, again.suffixes[i], isValid) {
        assert !SuffixClaimable(reg, fullName, metric.suffixes[i], isValid) ==> Rejected(reg, fullName, t, metric.suffixes, isValid);
      }
    }
    var key := fullName + metric.serializedTags;
    assert key in reg1.rootNameAndTagsToMetric && reg1.rootNameAndTagsToMetric[key] == first.result.value;
    CommitAgainChangesNothing(reg1, t, fullName, again);
  }

  /** Committing a registration whose claims are all in place and whose instance is
      stored, and is a `t`, returns that instance and changes nothing. */
  lemma CommitAgainChangesNothing(reg: Registry, t: MetricType, fullName: string, metric: Metric)
    requires fullName in reg.rootNameToType && reg.rootNameToType[fullName] == t
    requires forall i :: 0 <= i < |metric.suffixes| ==>
               fullName + metric.suffixes[i] in reg.nameAndSuffixToRootName
               && reg.nameAndSuffixToRootName[fullName + metric.suffixes[i]] == fullName
    requires fullName + metric.serializedTags in reg.rootNameAndTagsToMetric
    requires reg.rootNameAndTagsToMetric[fullName + metric.serializedTags].kind == t
    ensures Commit(reg, t, fullName, metric) ==
              Registration(reg, Success(reg.rootNameAndTagsToMetric[fullName + metric.serializedTags]))
  {
    var r := Commit(reg, t, fullName, metric);
    assert r.registry.nameAndSuffixToRootName == reg.nameAndSuffixToRootName;
    assert r.registry.rootNameToType == reg.rootNameToType;
  }

  /** With a root claimed by a type whose suffixes include the empty suffix, registering
      a different type at the same name fails with a type conflict and changes nothing. */
  lemma TypeConflictWhenRootIsClaimedName(reg: Registry, prefix: string, isValid: string -> bool,
                                          t: MetricType, u: MetricType, name: string, metric: Metric, other: Metric)
    requires "" in metric.suffixes
    requires t != u
    requires GetMetric(reg, prefix, isValid, t, name, metric).result.Success?
    ensures var first := GetMetric(reg, prefix, isValid, t, name, metric);
            var second := GetMetric(first.registry, prefix, isValid, u, name, other);
            second == Registration(first.registry, Failure(TypeConflict(prefix + name, u, t)))
  {
    var fullName := prefix + name;
    var first := GetMetric(reg, prefix, isValid, t, name, metric);
    var i :| 0 <= i < |metric.suffixes| && metric.suffixes[i] == "";
    assert fullName + metric.suffixes[i] == fullName;
    assert fullName in ClaimedNames(fullName, metric.suffixes);
    assert RootNameTaken(first.registry, fullName, u);
  }

  // ---------------------------------------------------------------------------
  // The root-type check as written fires only when the root name is itself a
  // claimed name+suffix. A type whose suffixes do not include "" claims its root
  // in `rootNameToType` only, and a later registration of another type at that
  // root passes both checks and overwrites the root's type; with the same tags it
  // then also throws on the cast, leaving the overwritten claims behind.
  // ---------------------------------------------------------------------------

  /** Registration as evidently intended: a root claimed by another type is always a
      conflict, whether or not the root is also a claimed name+suffix, and every
      exception leaves the maps as they were, the cast included. */
  function GetMetricStrict(reg: Registry, prefix: string, isValid: string -> bool,
                           t: MetricType, name: string, metric: Metric): (r: Registration)
    ensures r.result.Failure? <==>
              || Rejected(reg, prefix + name, t, metric.suffixes, isValid)
              || (prefix + name in reg.rootNameToType && reg.rootNameToType[prefix + name] != t)
              || CastFails(reg, prefix + name + metric.serializedTags, t)
    ensures r.result.Failure? ==> r.registry == reg
    ensures r.result.Success? ==> r == Commit(reg, t, prefix + name, metric)
  {
    var fullName := prefix + name;
    if fullName in reg.rootNameToType && reg.rootNameToType[fullName] != t then
      Registration(reg, Failure(TypeConflict(fullName, t, reg.rootNameToType[fullName])))
    else
      var r := GetMetric(reg, prefix, isValid, t, name, metric);
      if r.result.Failure? then Registration(reg, r.result) else r
  }

  /** Under the strict check no claim is ever reassigned: every root keeps its type and
      every name+suffix keeps its root, so the registry only grows. */
  lemma GetMetricStrictKeepsClaims(reg: Registry, prefix: string, isValid: string -> bool,
                                   t: MetricType, name: string, metric: Metric)
    ensures var r := GetMetricStrict(reg, prefix, isValid, t, name, metric);
            && (forall k :: k in reg.rootNameToType ==>
                  k in r.registry.rootNameToType && r.registry.rootNameToType[k] == reg.rootNameToType[k])
            && (forall k :: k in reg.nameAndSuffixToRootName ==>
                  k in r.registry.nameAndSuffixToRootName
                  && r.registry.nameAndSuffixToRootName[k] == reg.nameAndSuffixToRootName[k])
  {
    var fullName := prefix + name;
    var r := GetMetricStrict(reg, prefix, isValid, t, name, metric);
    if r.result.Success? {
      forall k | k in reg.nameAndSuffixToRootName
        ensures r.registry.nameAndSuffixToRootName[k] == reg.nameAndSuffixToRootName[k]
      {
        if k in ClaimedNames(fullName, metric.suffixes) {
          var i :| 0 <= i < |metric.suffixes| && k == fullName + metric.suffixes[i];
          assert SuffixClaimable(reg, fullName, metric.suffixes[i], isValid);
        }
      }
    }
  }

  /** Under the strict check, once a root is claimed for `t`, registering any other type
      at that name fails with a type conflict, whatever its suffixes. */
  lemma GetMetricStrictTypeConflict(reg: Registry, prefix: string, isValid: string -> bool,
                                    t: MetricType, u: MetricType, name: string, metric: Metric, other: Metric)
    requires t != u
    requires GetMetricStrict(reg, prefix, isValid, t, name, metric).result.Success?
    ensures var first := GetMetricStrict(reg, prefix, isValid, t, name, metric);
            var second := GetMetricStrict(first.registry, prefix, isValid, u, name, other);
            second == Registration(first.registry, Failure(TypeConflict(prefix + name, u, t)))
  {
  }

  /** The registration as written lets a counter take over the root of an aggregate
      gauge whose only suffix is "_max". With other tags the takeover succeeds and the
      root's type changes; with the gauge's own tags the call also overwrites the root's
      type and claims "foo" for the counter, and only then throws on the cast of the
      stored gauge. */
  lemma GetMetricOverwritesRootType()
    ensures var gauge := MetricType("AggregateGauge");
            var counter := MetricType("Counter");
            var isValid := (s: string) => true;
            var first := GetMetric(EmptyRegistry, "", isValid, gauge, "foo", Metric(1, gauge, "", ["_max"], ""));
            var second := GetMetric(first.registry, "", isValid, counter, "foo", Metric(2, counter, "", [""], "|host=a"));
            var third := GetMetric(first.registry, "", isValid, counter, "foo", Metric(3, counter, "", [""], ""));
            && first.result.Success?
            && first.registry.rootNameToType == map["foo" := gauge]
            && second.result.Success?
            && second.registry.rootNameToType == map["foo" := counter]
            && third.result == Failure(InvalidCast("foo", counter, gauge))
            && third.registry.rootNameToType == map["foo" := counter]
            && "foo" in third.registry.nameAndSuffixToRootName
  {
    var gauge := MetricType("AggregateGauge");
    var counter := MetricType("Counter");
    var isValid := (s: string) => true;
    GaugeAtFoo();
    var reg1 := GetMetric(EmptyRegistry, "", isValid, gauge, "foo", Metric(1, gauge, "", ["_max"], "")).registry;
    assert "" + "foo" == "foo" && "foo" + "" == "foo" && "foo" + [""][0] == "foo";
    assert "foo" != "foo_max" by { assert |"foo"| != |"foo_max"|; }
    assert !Rejected(reg1, "foo", counter, [""], isValid);
    assert "foo" in ClaimedNames("foo", [""]);
  }

  /** The first registration of the counterexample: the gauge claims "foo" as its root
      and "foo_max" as its only name+suffix, and is stored under "foo". */
  lemma GaugeAtFoo()
    ensures var gauge := MetricType("AggregateGauge");
            GetMetric(EmptyRegistry, "", (s: string) => true, gauge, "foo", Metric(1, gauge, "", ["_max"], "")) ==
              Registration(Registry(map["foo" := gauge], map["foo_max" := "foo"], map["foo" := Metric(1, gauge, "foo", ["_max"], "")]),
                           Success(Metric(1, gauge, "foo", ["_max"], "")))
  {
    var gauge := MetricType("AggregateGauge");
    var isValid := (s: string) => true;
    assert "" + "foo" == "foo" && "foo" + "" == "foo";
    assert !Rejected(EmptyRegistry, "foo", gauge, ["_max"], isValid);
    assert ClaimedNames("foo", ["_max"]) == {"foo_max"} by {
      assert "foo" + ["_max"][0] == "foo_max";
    }
  }

  /** The same registrations under the strict check: both takeovers are refused, and the
      gauge keeps the root with nothing changed. */
  lemma GetMetricStrictRefusesTakeover()
    ensures var gauge := MetricType("AggregateGauge");
            var counter := MetricType("Counter");
            var isValid := (s: string) => true;
            var first := GetMetricStrict(EmptyRegistry, "", isValid, gauge, "foo", Metric(1, gauge, "", ["_max"], ""));
            var second := GetMetricStrict(first.registry, "", isValid, counter, "foo", Metric(2, counter, "", [""], "|host=a"));
            var third := GetMetricStrict(first.registry, "", isValid, counter, "foo", Metric(3, counter, "", [""], ""));
            && second == Registration(first.registry, Failure(TypeConflict("foo", counter, gauge)))
            && third == Registration(first.registry, Failure(TypeConflict("foo", counter, gauge)))
            && first.registry.rootNameToType == map["foo" := gauge]
  {
    var gauge := MetricType("AggregateGauge");
    var isValid := (s: string) => true;
    assert "" + "foo" == "foo";
    assert !Rejected(EmptyRegistry, "foo", gauge, ["_max"], isValid);
  }
}
