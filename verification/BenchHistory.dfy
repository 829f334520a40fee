/** Merging benchmark results into one history entry: bench/history.js.

    A JavaScript object used as a dictionary is a map, so the order of its keys is not modelled. */
module BenchHistory {
  import opened Prelude

  type Env = map<string, string>

  type Metric = int

  type Scenarios = map<string, map<string, Metric>>

  /** One normalised result with the commit it is recorded for. */
  datatype Input = Input(sha: string, url: string, env: Option<Env>, scenarios: Scenarios)

  datatype Entry = Entry(sha: string, url: string, env: Option<Env>, scenarios: Scenarios)

  // ---- What merging means ---------------------------------------------------------------------------

  predicate EnvAgrees(a: Option<Env>, b: Option<Env>) {
    a.Some? && b.Some? ==> forall k :: k in a.value && k in b.value ==> a.value[k] == b.value[k]
  }

  predicate MetricsDisjoint(a: Scenarios, b: Scenarios) {
    forall s :: s in a && s in b ==> a[s].Keys !! b[s].Keys
  }

  function EnvUnion(a: Option<Env>, b: Option<Env>): Option<Env> {
    if a.None? then b else if b.None? then a else Some(a.value + b.value)
  }

  function ScenarioUnion(a: Scenarios, b: Scenarios): Scenarios {
    map s | s in a.Keys + b.Keys ::
      if s in a && s in b then a[s] + b[s] else if s in a then a[s] else b[s]
  }

  /** The entry update of `appendHistoryEntry`; None is a thrown error. */
  function Appended(entry: Option<Entry>, x: Input): Option<Entry> {
    match entry
    case None => Some(Entry(x.sha, x.url, x.env, x.scenarios))
    case Some(e) =>
      if e.sha != x.sha || (e.url != "" && e.url != x.url) then None
      else if !EnvAgrees(e.env, x.env) || !MetricsDisjoint(e.scenarios, x.scenarios) then None
      else Some(Entry(e.sha, e.url, EnvUnion(e.env, x.env), ScenarioUnion(e.scenarios, x.scenarios)))
  }

  // ---- The loops --------------------------------------------------------------------------------------

  method MergeEnvironment(existing: Option<Env>, incoming: Option<Env>) returns (ok: bool, r: Option<Env>)
    ensures ok <==> EnvAgrees(existing, incoming)
    ensures ok ==> r == EnvUnion(existing, incoming)
  {
    if existing.None? { return true, incoming; }
    if incoming.None? { return true, existing; }
    var merged := existing.value;
    var left := incoming.value.Keys;
    while left != {}
      invariant left <= incoming.value.Keys
      invariant merged == existing.value + (incoming.value - left)
      invariant forall k :: k in incoming.value && k !in left && k in existing.value ==>
                  existing.value[k] == incoming.value[k]
      decreases left
    {
      var key :| key in left;
      var value := incoming.value[key];
      if key in existing.value && existing.value[key] != value { return false, None; }
      merged := merged[key := value];
      left := left - {key};
    }
    assert incoming.value - left == incoming.value;
    return true, Some(merged);
  }

  method MergeMetrics(existing: map<string, Metric>, incoming: map<string, Metric>)
    returns (ok: bool, r: map<string, Metric>)
    ensures ok <==> existing.Keys !! incoming.Keys
    ensures ok ==> r == existing + incoming
  {
    r := existing;
    var left := incoming.Keys;
    while left != {}
      invariant left <= incoming.Keys
      invariant r == existing + (incoming - left)
      invariant existing.Keys !! (incoming.Keys - left)
      decreases left
    {
      var name :| name in left;
      if name in r { return false, r; }
      r := r[name := incoming[name]];
      left := left - {name};
    }
    assert incoming - left == incoming;
    return true, r;
  }

  lemma OneMoreScenario(existing: Scenarios, before: Scenarios, name: string, metrics: map<string, Metric>)
    requires name !in before
    ensures var union := ScenarioUnion(existing, before);
            && (name in union <==> name in existing)
            && (name in existing ==> union[name] == existing[name])
            && ScenarioUnion(existing, before[name := metrics]) ==
               union[name := if name in existing then existing[name] + metrics else metrics]
  {
  }

  lemma OneMoreDisjoint(existing: Scenarios, before: Scenarios, name: string, metrics: map<string, Metric>)
    requires name !in before
    ensures MetricsDisjoint(existing, before[name := metrics]) <==>
            MetricsDisjoint(existing, before) && (name in existing ==> existing[name].Keys !! metrics.Keys)
  {
    var more := before[name := metrics];
    assert forall s :: s in before ==> s in more && more[s] == before[s];
    assert name in more && more[name] == metrics;
  }

  method MergeScenarios(existing: Scenarios, incoming: Scenarios) returns (ok: bool, r: Scenarios)
    ensures ok <==> MetricsDisjoint(existing, incoming)
    ensures ok ==> r == ScenarioUnion(existing, incoming)
  {
    r := existing;
    var left := incoming.Keys;
    while left != {}
      invariant left <= incoming.Keys
      invariant r == ScenarioUnion(existing, incoming - left)
      invariant MetricsDisjoint(existing, incoming - left)
      decreases left
    {
      var name :| name in left;
      ghost var before := incoming - left;
      OneMoreScenario(existing, before, name, incoming[name]);
      OneMoreDisjoint(existing, before, name, incoming[name]);
      if name !in r {
        r := r[name := incoming[name]];
      } else {
        var good, metrics := MergeMetrics(r[name], incoming[name]);
        if !good { return false, r; }
        r := r[name := metrics];
      }
      left := left - {name};
      assert incoming - left == before[name := incoming[name]];
    }
    assert incoming - left == incoming;
    return true, r;
  }

  class History {
    var entries: map<string, Entry>

    constructor ()
      ensures entries == map[]
    {
      entries := map[];
    }

    /** A conflict throws before anything is stored. */
    method AppendHistoryEntry(id: string, x: Input) returns (ok: bool)
      modifies this
      ensures var entry := if id in old(entries) then Some(old(entries)[id]) else None;
              && ok == Appended(entry, x).Some?
              && entries == if ok then old(entries)[id := Appended(entry, x).value] else old(entries)
    {
      if id !in entries {
        entries := entries[id := Entry(x.sha, x.url, x.env, x.scenarios)];
        return true;
      }
      var existing := entries[id];
      if existing.sha != x.sha { return false; }
      if existing.url != "" && existing.url != x.url { return false; }
      var envOk, env := MergeEnvironment(existing.env, x.env);
      if !envOk { return false; }
      var scenariosOk, scenarios := MergeScenarios(existing.scenarios, x.scenarios);
      if !scenariosOk { return false; }
      entries := entries[id := Entry(existing.sha, existing.url, env, scenarios)];
      return true;
    }
  }

  // ---- Appending a list ---------------------------------------------------------------------------------

  /** All results of a list in turn, starting from no entry; None as soon as one throws. */
  function AppendedAll(xs: seq<Input>): Option<Option<Entry>> {
    if xs == [] then Some(None)
    else match AppendedAll(xs[..|xs| - 1])
      case None => None
      case Some(entry) =>
        match Appended(entry, xs[|xs| - 1])
        case None => None
        case Some(e) => Some(Some(e))
  }

  /** Recorded urls are never empty. */
  predicate HasUrls(xs: seq<Input>) {
    forall x :: x in xs ==> x.url != ""
  }

  predicate HasVar(env: Option<Env>, k: string, v: string) {
    env.Some? && k in env.value && env.value[k] == v
  }

  predicate HasMetric(sc: Scenarios, s: string, k: string, m: Metric) {
    s in sc && k in sc[s] && sc[s][k] == m
  }

  /** No variable has two values, and no metric of a scenario is in both. */
  ghost predicate Compatible(a: Input, b: Input) {
    && a.sha == b.sha && a.url == b.url
    && (forall k, v, w :: HasVar(a.env, k, v) && HasVar(b.env, k, w) ==> v == w)
    && (forall s, k, m, n :: !(HasMetric(a.scenarios, s, k, m) && HasMetric(b.scenarios, s, k, n)))
  }

  lemma CompatibleSymmetric(a: Input, b: Input)
    ensures Compatible(a, b) <==> Compatible(b, a)
  {
  }

  ghost predicate AllCompatible(xs: seq<Input>) {
    forall i, j :: 0 <= i < j < |xs| ==> Compatible(xs[i], xs[j])
  }

  /** The entry holds exactly what the inputs hold: nothing lost, changed or invented. */
  ghost predicate Holds(e: Entry, xs: seq<Input>) {
    && (forall x :: x in xs ==> x.sha == e.sha && x.url == e.url)
    && (e.env.Some? <==> exists x :: x in xs && x.env.Some?)
    && (forall k, v :: HasVar(e.env, k, v) <==> exists x :: x in xs && HasVar(x.env, k, v))
    && (forall s :: s in e.scenarios <==> exists x :: x in xs && s in x.scenarios)
    && (forall s, k, m :: HasMetric(e.scenarios, s, k, m) <==> exists x :: x in xs && HasMetric(x.scenarios, s, k, m))
  }

  lemma EnvFitsAll(e: Entry, xs: seq<Input>, x: Input)
    requires Holds(e, xs)
    ensures EnvAgrees(e.env, x.env) <==>
            forall y, k, v, w :: y in xs && HasVar(y.env, k, v) && HasVar(x.env, k, w) ==> v == w
  {
    if EnvAgrees(e.env, x.env) {
      forall y, k, v, w | y in xs && HasVar(y.env, k, v) && HasVar(x.env, k, w) ensures v == w {
        assert HasVar(e.env, k, v);
      }
    } else {
      var k :| k in e.env.value && k in x.env.value && e.env.value[k] != x.env.value[k];
      assert HasVar(e.env, k, e.env.value[k]) && HasVar(x.env, k, x.env.value[k]);
      var y :| y in xs && HasVar(y.env, k, e.env.value[k]);
    }
  }

  lemma ScenariosFitAll(e: Entry, xs: seq<Input>, x: Input)
    requires Holds(e, xs)
    ensures MetricsDisjoint(e.scenarios, x.scenarios) <==>
            forall y, s, k, m, n :: y in xs && HasMetric(y.scenarios, s, k, m) ==> !HasMetric(x.scenarios, s, k, n)
  {
    if MetricsDisjoint(e.scenarios, x.scenarios) {
      forall y, s, k, m, n | y in xs && HasMetric(y.scenarios, s, k, m) ensures !HasMetric(x.scenarios, s, k, n) {
        assert HasMetric(e.scenarios, s, k, m);
      }
    } else {
      var s :| s in e.scenarios && s in x.scenarios && !(e.scenarios[s].Keys !! x.scenarios[s].Keys);
      var k :| k in e.scenarios[s] && k in x.scenarios[s];
      assert HasMetric(e.scenarios, s, k, e.scenarios[s][k]) && HasMetric(x.scenarios, s, k, x.scenarios[s][k]);
      var y :| y in xs && HasMetric(y.scenarios, s, k, e.scenarios[s][k]);
    }
  }

  lemma FitsEntryIffFitsAll(e: Entry, xs: seq<Input>, x: Input)
    requires Holds(e, xs) && xs != [] && x.url != "" && e.url != ""
    ensures Appended(Some(e), x).Some? <==> forall y :: y in xs ==> Compatible(y, x)
  {
    EnvFitsAll(e, xs, x);
    ScenariosFitAll(e, xs, x);
    assert xs[0] in xs;
    if forall y :: y in xs ==> Compatible(y, x) { assert Compatible(xs[0], x); }
  }

  lemma EnvAppended(e: Entry, xs: seq<Input>, x: Input)
    requires Holds(e, xs) && EnvAgrees(e.env, x.env)
    ensures var env := EnvUnion(e.env, x.env);
            && (env.Some? <==> exists y :: y in xs + [x] && y.env.Some?)
            && (forall k, v :: HasVar(env, k, v) <==> exists y :: y in xs + [x] && HasVar(y.env, k, v))
  {
    var env, ys := EnvUnion(e.env, x.env), xs + [x];
    assert x in ys && forall y :: y in ys <==> y in xs || y == x;
    forall k, v ensures HasVar(env, k, v) <==> exists y :: y in ys && HasVar(y.env, k, v) {
      assert HasVar(env, k, v) <==> HasVar(e.env, k, v) || HasVar(x.env, k, v);
    }
  }

  lemma ScenariosAppended(e: Entry, xs: seq<Input>, x: Input)
    requires Holds(e, xs) && MetricsDisjoint(e.scenarios, x.scenarios)
    ensures var sc := ScenarioUnion(e.scenarios, x.scenarios);
            && (forall s :: s in sc <==> exists y :: y in xs + [x] && s in y.scenarios)
            && (forall s, k, m ::
                  HasMetric(sc, s, k, m) <==> exists y :: y in xs + [x] && HasMetric(y.scenarios, s, k, m))
  {
    var sc, ys := ScenarioUnion(e.scenarios, x.scenarios), xs + [x];
    assert x in ys && forall y :: y in ys <==> y in xs || y == x;
    forall s, k, m ensures HasMetric(sc, s, k, m) <==> exists y :: y in ys && HasMetric(y.scenarios, s, k, m) {
      assert HasMetric(sc, s, k, m) <==> HasMetric(e.scenarios, s, k, m) || HasMetric(x.scenarios, s, k, m);
    }
  }

  lemma HoldsMore(e: Entry, xs: seq<Input>, x: Input)
    requires Holds(e, xs) && xs != [] && e.url != "" && Appended(Some(e), x).Some?
    ensures Holds(Appended(Some(e), x).value, xs + [x])
  {
    EnvAppended(e, xs, x);
    ScenariosAppended(e, xs, x);
  }

  lemma HoldsFirst(x: Input)
    ensures Holds(Entry(x.sha, x.url, x.env, x.scenarios), [x])
  {
    assert x in [x] && forall y :: y in [x] <==> y == x;
  }

  lemma AllCompatibleMore(xs: seq<Input>, x: Input)
    ensures AllCompatible(xs + [x]) <==> AllCompatible(xs) && forall y :: y in xs ==> Compatible(y, x)
  {
    var ys := xs + [x];
    if AllCompatible(ys) {
      forall y | y in xs ensures Compatible(y, x) {
        var i :| 0 <= i < |xs| && xs[i] == y;
        assert Compatible(ys[i], ys[|xs|]);
      }
      forall i, j | 0 <= i < j < |xs| ensures Compatible(xs[i], xs[j]) { assert Compatible(ys[i], ys[j]); }
    }
  }

  /** Appending succeeds exactly when the inputs are pairwise compatible, and then the entry holds
      exactly their variables and metrics. */
  lemma {:induction false} AppendsExactly(xs: seq<Input>)
    requires HasUrls(xs)
    ensures AppendedAll(xs).Some? <==> AllCompatible(xs)
    ensures AppendedAll(xs).Some? ==> (AppendedAll(xs).value.None? <==> xs == [])
    ensures xs != [] && AppendedAll(xs).Some? ==> Records(AppendedAll(xs).value.value, xs)
  {
    if xs != [] {
      var pre, x := xs[..|xs| - 1], xs[|xs| - 1];
      AppendsExactly(pre);
      LastAppended(pre, x);
      assert xs == pre + [x];
    }
  }

  ghost predicate Records(e: Entry, xs: seq<Input>) {
    Holds(e, xs) && e.url != ""
  }

  lemma LastAppended(pre: seq<Input>, x: Input)
    requires x.url != ""
    requires AppendedAll(pre).Some? <==> AllCompatible(pre)
    requires AppendedAll(pre).Some? ==> (AppendedAll(pre).value.None? <==> pre == [])
    requires pre != [] && AppendedAll(pre).Some? ==> Records(AppendedAll(pre).value.value, pre)
    ensures AppendedAll(pre + [x]).Some? <==> AllCompatible(pre + [x])
    ensures AppendedAll(pre + [x]).Some? ==> AppendedAll(pre + [x]).value.Some?
    ensures AppendedAll(pre + [x]).Some? ==> Records(AppendedAll(pre + [x]).value.value, pre + [x])
  {
    assert (pre + [x])[..|pre|] == pre;
    AllCompatibleMore(pre, x);
    if AppendedAll(pre).Some? {
      if pre == [] {
        HoldsFirst(x);
        assert pre + [x] == [x];
      } else {
        AppendsOneMore(AppendedAll(pre).value.value, pre, x);
      }
    }
  }

  lemma AppendsOneMore(e: Entry, xs: seq<Input>, x: Input)
    requires Holds(e, xs) && xs != [] && e.url != "" && x.url != ""
    ensures Appended(Some(e), x).Some? <==> forall y :: y in xs ==> Compatible(y, x)
    ensures Appended(Some(e), x).Some? ==>
              Holds(Appended(Some(e), x).value, xs + [x]) && Appended(Some(e), x).value.url != ""
  {
    FitsEntryIffFitsAll(e, xs, x);
    if Appended(Some(e), x).Some? { HoldsMore(e, xs, x); }
  }

  // ---- Order independence ---------------------------------------------------------------------------------

  lemma EnvDetermined(a: Option<Env>, b: Option<Env>)
    requires a.Some? <==> b.Some?
    requires forall k, v :: HasVar(a, k, v) <==> HasVar(b, k, v)
    ensures a == b
  {
    if a.Some? {
      forall k | k in a.value ensures k in b.value && b.value[k] == a.value[k] { assert HasVar(a, k, a.value[k]); }
      forall k | k in b.value ensures k in a.value { assert HasVar(b, k, b.value[k]); }
      assert a.value == b.value;
    }
  }

  lemma ScenariosDetermined(a: Scenarios, b: Scenarios)
    requires forall s :: s in a <==> s in b
    requires forall s, k, m :: HasMetric(a, s, k, m) <==> HasMetric(b, s, k, m)
    ensures a == b
  {
    forall s | s in a ensures a[s] == b[s] {
      forall k | k in a[s] ensures k in b[s] && b[s][k] == a[s][k] { assert HasMetric(a, s, k, a[s][k]); }
      forall k | k in b[s] ensures k in a[s] { assert HasMetric(b, s, k, b[s][k]); }
    }
    assert a.Keys == b.Keys;
  }

  lemma HoldsDetermines(a: Entry, xs: seq<Input>, b: Entry, ys: seq<Input>)
    requires Holds(a, xs) && Holds(b, ys) && xs != [] && forall x :: x in xs <==> x in ys
    ensures a == b
  {
    assert xs[0] in xs;
    forall k, v ensures HasVar(a.env, k, v) <==> HasVar(b.env, k, v) {
      assert (exists x :: x in xs && HasVar(x.env, k, v)) <==> exists x :: x in ys && HasVar(x.env, k, v);
    }
    EnvDetermined(a.env, b.env);
    forall s, k, m ensures HasMetric(a.scenarios, s, k, m) <==> HasMetric(b.scenarios, s, k, m) {
      assert (exists x :: x in xs && HasMetric(x.scenarios, s, k, m)) <==>
             exists x :: x in ys && HasMetric(x.scenarios, s, k, m);
    }
    ScenariosDetermined(a.scenarios, b.scenarios);
  }

  /** Pairwise compatibility, said of a bag: equal inputs may not occur twice unless they fit together. */
  ghost predicate BagCompatible(bag: multiset<Input>) {
    forall a, b :: a in bag && b in bag && (a != b || bag[a] > 1) ==> Compatible(a, b)
  }

  lemma {:induction false} CompatibleAsBag(xs: seq<Input>)
    ensures AllCompatible(xs) <==> BagCompatible(multiset(xs))
  {
    if xs != [] {
      var pre, x := xs[..|xs| - 1], xs[|xs| - 1];
      assert xs == pre + [x];
      CompatibleAsBag(pre);
      AllCompatibleMore(pre, x);
      BagMore(multiset(pre), x);
      assert multiset(xs) == multiset(pre) + multiset{x};
      assert forall y :: y in pre <==> y in multiset(pre);
    }
  }

  lemma BagMore(bag: multiset<Input>, x: Input)
    ensures BagCompatible(bag + multiset{x}) <==> BagCompatible(bag) && forall y :: y in bag ==> Compatible(y, x)
  {
    var more := bag + multiset{x};
    if BagCompatible(more) {
      forall y | y in bag ensures Compatible(y, x) { assert y in more && x in more; }
      forall a, b | a in bag && b in bag && (a != b || bag[a] > 1) ensures Compatible(a, b) {
        assert a in more && b in more;
      }
    }
    if BagCompatible(bag) && forall y :: y in bag ==> Compatible(y, x) {
      forall a, b | a in more && b in more && (a != b || more[a] > 1) ensures Compatible(a, b) {
        CompatibleSymmetric(a, b);
        if a == x { assert b in bag; } else if b == x { assert a in bag; }
      }
    }
  }

  /** Any list of results, in any order: all orders succeed with the same entry, or all fail. */
  lemma OrderDoesNotMatter(xs: seq<Input>, ys: seq<Input>)
    requires HasUrls(xs) && multiset(xs) == multiset(ys)
    ensures AppendedAll(xs) == AppendedAll(ys)
  {
    forall x ensures x in xs <==> x in ys {
      assert (x in xs <==> x in multiset(xs)) && (x in ys <==> x in multiset(ys));
    }
    AppendsExactly(xs);
    AppendsExactly(ys);
    CompatibleAsBag(xs);
    CompatibleAsBag(ys);
    assert |xs| == |multiset(xs)| == |ys|;
    if AppendedAll(xs).Some? && xs != [] {
      HoldsDetermines(AppendedAll(xs).value.value, xs, AppendedAll(ys).value.value, ys);
    }
  }
}
