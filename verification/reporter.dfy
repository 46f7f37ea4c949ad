/** The reporter as a whole: its name prefix and options, the registry and the flush state,
    and the constructor's check of the prefix. */
module Reporter {
  import opened Wrappers
  import opened Registry
  import opened Flush

  datatype Reporter = Reporter(prefix: string, options: Options, registry: Registry, flush: FlushState)

  /** The exception the constructor throws for a prefix that is not a valid metric name. */
  datatype ConstructionError = InvalidPrefix(prefix: string)

  /** The constructor without its timers: a null prefix is the empty prefix, a non-empty
      prefix must be a valid metric name, and everything starts empty. */
  function NewReporter(prefix: Option<string>, isValid: string -> bool, options: Options)
    : (r: Result<Reporter, ConstructionError>)
    ensures r.Failure? <==> prefix.Some? && prefix.value != "" && !isValid(prefix.value)
    ensures r.Failure? ==> r.error == InvalidPrefix(prefix.value)
    ensures r.Success? ==>
              && r.value.prefix == (if prefix.None? then "" else prefix.value)
              && r.value.options == options
              && r.value.registry == EmptyRegistry && Valid(r.value.registry)
              && r.value.flush == InitialState && Idle(options, r.value.flush)
  {
    var p := if prefix.None? then "" else prefix.value;
    if p != "" && !isValid(p) then Failure(InvalidPrefix(p))
    else Success(Reporter(p, options, EmptyRegistry, InitialState))
  }

  /** Registering a metric through the reporter, with the reporter's prefix. It uses the
      strict root-type check, under which no claim is ever reassigned. */
  function Register(rep: Reporter, isValid: string -> bool, t: MetricType, name: string, metric: Metric)
    : (r: (Reporter, Result<Metric, RegistryError>))
    ensures r.0.prefix == rep.prefix && r.0.options == rep.options && r.0.flush == rep.flush
    ensures Valid(rep.registry) ==> Valid(r.0.registry)
    ensures r.1.Failure? ==> r.0 == rep
    ensures forall k :: k in rep.registry.rootNameToType ==>
              k in r.0.registry.rootNameToType && r.0.registry.rootNameToType[k] == rep.registry.rootNameToType[k]
  {
    GetMetricStrictKeepsClaims(rep.registry, rep.prefix, isValid, t, name, metric);
    var reg := GetMetricStrict(rep.registry, rep.prefix, isValid, t, name, metric);
    assert Valid(rep.registry) ==> Valid(reg.registry) by {
      if Valid(rep.registry) { GetMetricPreservesValid(rep.registry, rep.prefix, isValid, t, name, metric); }
    }
    (rep.(registry := reg.registry), reg.result)
  }
}
