/** Metadata gathering: one metric per distinct name, the first one met in enumeration
    order, whose default metadata is collected for posting. */
module MetaData {
  import opened Wrappers
  import opened Registry

  /** Some metric of `ms` carries the name `n`. */
  predicate HasName(ms: seq<Metric>, n: string) {
    exists i :: 0 <= i < |ms| && ms[i].name == n
  }

  /** No two metrics of `ms` share a name. */
  predicate DistinctNames(ms: seq<Metric>) {
    forall a, b :: 0 <= a < b < |ms| ==> ms[a].name != ms[b].name
  }

  /** Each metric of `kept` is the first non-null metric of `ms` with its name. */
  predicate FirstOccurrences(ms: seq<Option<Metric>>, kept: seq<Metric>) {
    forall i :: 0 <= i < |kept| ==> FirstNamed(ms, kept[i].name) == Some(kept[i])
  }

  /** Every non-null metric of `ms` has its name among `kept`. */
  predicate CoversNames(ms: seq<Option<Metric>>, kept: seq<Metric>) {
    forall j :: 0 <= j < |ms| && ms[j].Some? ==> HasName(kept, ms[j].value.name)
  }

  /** The first non-null metric named `n` in enumeration order, if any. */
  function FirstNamed(ms: seq<Option<Metric>>, n: string): Option<Metric>
    decreases |ms|
  {
    if |ms| == 0 then None
    else if ms[0].Some? && ms[0].value.name == n then ms[0]
    else FirstNamed(ms[1..], n)
  }

  /** The metrics whose metadata is gathered, as the loop picks them: a non-null metric is
      kept when no earlier kept metric has its name. */
  function Representatives(ms: seq<Option<Metric>>): seq<Metric>
    decreases |ms|
  {
    if |ms| == 0 then []
    else
      var kept := Representatives(ms[..|ms| - 1]);
      var last := ms[|ms| - 1];
      if last.None? || HasName(kept, last.value.name) then kept else kept + [last.value]
  }

  /** The metadata of the kept metrics, in order, as produced by the metric type. */
  function Describe<D>(kept: seq<Metric>, describe: Metric -> seq<D>): seq<D>
    decreases |kept|
  {
    if |kept| == 0 then [] else Describe(kept[..|kept| - 1], describe) + describe(kept[|kept| - 1])
  }

  /** `GatherMetaData`: walk the metrics, skip nulls and names already seen, and collect
      the default metadata of the rest. Returns the metrics it kept and their metadata. */
  method GatherMetaData<D>(metrics: seq<Option<Metric>>, describe: Metric -> seq<D>)
    returns (kept: seq<Metric>, metaList: seq<D>)
    ensures kept == Representatives(metrics)
    ensures metaList == Describe(kept, describe)
    ensures DistinctNames(kept)
    ensures CoversNames(metrics, kept)
    ensures FirstOccurrences(metrics, kept)
  {
    kept := [];
    metaList := [];
    var nameSet: set<string> := {};
    for i := 0 to |metrics|
      invariant kept == Representatives(metrics[..i])
      invariant forall n :: n in nameSet <==> HasName(kept, n)
      invariant metaList == Describe(kept, describe)
    {
      var metric := metrics[i];
      RepresentativesStep(metrics, i);
      if metric.None? || metric.value.name in nameSet {
        continue;
      }
      HasNameAppend(kept, metric.value);
      DescribeAppend(kept, metric.value, describe);
      nameSet := nameSet + {metric.value.name};
      kept := kept + [metric.value];
      metaList := metaList + describe(metric.value);
    }
    assert metrics[..|metrics|] == metrics;
    RepresentativesDistinct(metrics);
    RepresentativesCover(metrics);
    RepresentativesFirst(metrics);
  }

  /** One more metric of the enumeration is kept exactly when it is non-null and its name
      is new. */
  lemma RepresentativesStep(ms: seq<Option<Metric>>, i: nat)
    requires i < |ms|
    ensures var kept := Representatives(ms[..i]);
            Representatives(ms[..i + 1]) ==
              if ms[i].None? || HasName(kept, ms[i].value.name) then kept else kept + [ms[i].value]
  {
    assert ms[..i + 1][..i] == ms[..i];
  }

  /** A name occurs after appending `m` exactly when it occurred before or is `m`'s. */
  lemma HasNameAppend(kept: seq<Metric>, m: Metric)
    ensures forall n :: HasName(kept + [m], n) <==> HasName(kept, n) || n == m.name
  {
    forall n ensures HasName(kept + [m], n) <==> HasName(kept, n) || n == m.name {
      if HasName(kept + [m], n) {
        var j :| 0 <= j < |kept + [m]| && (kept + [m])[j].name == n;
        if j < |kept| { assert kept[j] == (kept + [m])[j]; }
      }
      if HasName(kept, n) {
        var j :| 0 <= j < |kept| && kept[j].name == n;
        assert (kept + [m])[j] == kept[j];
      }
      if n == m.name { assert (kept + [m])[|kept|] == m; }
    }
  }

  /** Describing one more metric appends its metadata. */
  lemma DescribeAppend<D>(kept: seq<Metric>, m: Metric, describe: Metric -> seq<D>)
    ensures Describe(kept + [m], describe) == Describe(kept, describe) + describe(m)
  {
    assert (kept + [m])[..|kept|] == kept;
  }

  /** No two kept metrics share a name. */
  lemma {:induction false} RepresentativesDistinct(ms: seq<Option<Metric>>)
    ensures DistinctNames(Representatives(ms))
    decreases |ms|
  {
    if |ms| > 0 {
      var init := ms[..|ms| - 1];
      var last := ms[|ms| - 1];
      var kept := Representatives(init);
      RepresentativesDistinct(init);
      if !(last.None? || HasName(kept, last.value.name)) {
        var r := kept + [last.value];
        assert Representatives(ms) == r;
        forall a, b | 0 <= a < b < |r| ensures r[a].name != r[b].name {
          assert r[a] == kept[a];
          if b == |kept| {
            assert r[b] == last.value;
            assert !(0 <= a < |kept| && kept[a].name == last.value.name);
          } else {
            assert r[b] == kept[b];
          }
        }
      }
    }
  }

  /** Every non-null metric's name is the name of some kept metric. */
  lemma {:induction false} RepresentativesCover(ms: seq<Option<Metric>>)
    ensures CoversNames(ms, Representatives(ms))
    decreases |ms|
  {
    if |ms| > 0 {
      var init := ms[..|ms| - 1];
      var kept := Representatives(init);
      RepresentativesCover(init);
      var r := Representatives(ms);
      assert r[..|kept|] == kept;
      forall j | 0 <= j < |ms| && ms[j].Some? ensures HasName(r, ms[j].value.name) {
        if j < |ms| - 1 {
          assert ms[j] == init[j];
          var i :| 0 <= i < |kept| && kept[i].name == ms[j].value.name;
          assert r[i] == kept[i];
        } else if r != kept {
          assert r[|kept|] == ms[j].value;
        }
      }
    }
  }

  /** Each kept metric is the first non-null metric with its name: the first occurrence wins. */
  lemma {:induction false} RepresentativesFirst(ms: seq<Option<Metric>>)
    ensures FirstOccurrences(ms, Representatives(ms))
    decreases |ms|
  {
    if |ms| > 0 {
      var init := ms[..|ms| - 1];
      var last := ms[|ms| - 1];
      var kept := Representatives(init);
      RepresentativesFirst(init);
      assert ms == init + [last];
      var r := Representatives(ms);
      forall i | 0 <= i < |r| ensures FirstNamed(ms, r[i].name) == Some(r[i]) {
        FirstNamedAppend(init, last, r[i].name);
        if i < |kept| {
          assert r[i] == kept[i];
          assert FirstNamed(init, kept[i].name) == Some(kept[i]);
        } else {
          assert r[i] == last.value;
          assert !HasName(kept, last.value.name);
          if FirstNamed(init, last.value.name).Some? {
            var j := FirstNamedFound(init, last.value.name);
            RepresentativesCover(init);
            assert false;
          }
        }
      }
    }
  }

  /** Appending a metric changes the first one named `n` only when there was none. */
  lemma {:induction false} FirstNamedAppend(ms: seq<Option<Metric>>, x: Option<Metric>, n: string)
    ensures FirstNamed(ms + [x], n) ==
              if FirstNamed(ms, n).Some? then FirstNamed(ms, n)
              else if x.Some? && x.value.name == n then x
              else None
    decreases |ms|
  {
    if |ms| == 0 {
      assert [x][1..] == [];
    } else {
      assert (ms + [x])[1..] == ms[1..] + [x];
      FirstNamedAppend(ms[1..], x, n);
    }
  }

  /** A first metric named `n`, when there is one, is a non-null entry named `n`. */
  lemma {:induction false} FirstNamedFound(ms: seq<Option<Metric>>, n: string) returns (j: nat)
    requires FirstNamed(ms, n).Some?
    ensures j < |ms| && ms[j] == FirstNamed(ms, n) && ms[j].value.name == n
    decreases |ms|
  {
    if ms[0].Some? && ms[0].value.name == n {
      j := 0;
    } else {
      var k := FirstNamedFound(ms[1..], n);
      j := k + 1;
    }
  }
}
