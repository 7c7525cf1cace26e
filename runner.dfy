/**
 * Running a spec: `test_feature` (src/cli.php:253-372) and `test_spec`
 * (src/cli.php:223-247), without their printing.
 */
module Runner {
  import opened Values
  import opened Features
  import opened Specs
  import opened Scopes
  import opened Dispatch

  // ---------------------------------------------------------------------
  // Dereferencing a call's arguments (src/cli.php:275-279)

  /** The source dereferences the argument list and the keyword map each as
      one value, so a list or map that happens to look like a reference
      literal is resolved as a reference. */
  function DerefArgsAsWritten(args: seq<Value>, kwargs: seq<(string, Value)>, root: Value): Resolved<(Value, Value)> {
    match Deref(ListOf(args), root)
    case NotFound(n) => NotFound(n)
    case Found(a) =>
      match Deref(Arr(kwargs), root)
      case NotFound(n) => NotFound(n)
      case Found(k) => Found((a, k))
  }

  /** Each argument and each keyword value dereferenced on its own. */
  function DerefArgs(args: seq<Value>, kwargs: seq<(string, Value)>, root: Value): (r: Resolved<(seq<Value>, seq<(string, Value)>)>)
    ensures r.Found? ==> |r.value.0| == |args| && Keys(r.value.1) == Keys(kwargs)
    ensures r.Found? ==> forall i | 0 <= i < |args| :: Deref(args[i], root) == Found(r.value.0[i])
    ensures r.Found? ==> forall i | 0 <= i < |kwargs| :: Deref(kwargs[i].1, root) == Found(r.value.1[i].1)
  {
    match DerefEntries(ListOf(args).entries, 0, root)
    case NotFound(n) => NotFound(n)
    case Found(a) =>
      assert |a| == |args| && forall i | 0 <= i < |a| :: Deref(args[i], root) == Found(a[i].1) by {
        ListOfValues(args);
      }
      match DerefEntries(kwargs, 0, root)
      case NotFound(n) => NotFound(n)
      case Found(k) =>
        assert Keys(k) == Keys(kwargs) by { KeysOfSameKeys(k, kwargs); }
        Found((ValuesOf(a), k))
  }

  lemma ListOfValues(vs: seq<Value>)
    ensures |ListOf(vs).entries| == |vs|
    ensures forall i | 0 <= i < |vs| :: ListOf(vs).entries[i].1 == vs[i]
  {
  }

  lemma {:induction false} KeysOfSameKeys(a: seq<(string, Value)>, b: seq<(string, Value)>)
    requires |a| == |b| && forall i | 0 <= i < |a| :: a[i].0 == b[i].0
    ensures Keys(a) == Keys(b)
  {
    if a != [] {
      KeysOfSameKeys(a[1..], b[1..]);
    }
  }

  /** Arguments without reference literals reach the call unchanged. */
  lemma DerefArgsConcrete(args: seq<Value>, kwargs: seq<(string, Value)>, root: Value)
    requires forall i | 0 <= i < |args| :: Concrete(args[i])
    requires forall i | 0 <= i < |kwargs| :: Concrete(kwargs[i].1)
    ensures DerefArgs(args, kwargs, root) == Found((args, kwargs))
  {
    var e := ListOf(args).entries;
    ListOfValues(args);
    DerefEntriesConcrete(e, 0, root);
    DerefEntriesConcrete(kwargs, 0, root);
    assert e[0..] == e && kwargs[0..] == kwargs;
  }

  /** As written, a call whose only argument is null (likewise false, 0, ""
      or []) looks up the scope key "0"; with the initial scope that lookup
      raises outside the `try`, and the run ends. Dereferencing each
      argument passes the null through. */
  lemma SingleNullArgumentAsWritten()
    ensures DerefArgsAsWritten([Null], [], Arr(InitialScope)) == NotFound("0")
    ensures DerefArgs([Null], [], Arr(InitialScope)) == Found(([Null], []))
  {
    var e := ListOf([Null]).entries;
    assert e == [("0", Null)];
    ExplodeNoSep("0", '.');
    assert !HasKey(InitialScope, "0") && ToLower("0") == "0";
    DerefArgsConcrete([Null], [], Arr(InitialScope));
  }

  /** The two readings differ only on argument lists and keyword maps that
      are themselves shaped like a reference literal. */
  lemma DerefArgsAgree(args: seq<Value>, kwargs: seq<(string, Value)>, root: Value)
    requires !IsReference(ListOf(args)) && !IsReference(Arr(kwargs))
    ensures DerefArgsAsWritten(args, kwargs, root).Found? <==> DerefArgs(args, kwargs, root).Found?
    ensures DerefArgs(args, kwargs, root).Found? ==>
      DerefArgsAsWritten(args, kwargs, root).value
        == (ListOf(DerefArgs(args, kwargs, root).value.0), Arr(DerefArgs(args, kwargs, root).value.1))
  {
    var e := ListOf(args).entries;
    var da := DerefEntries(e, 0, root);
    var dk := DerefEntries(kwargs, 0, root);
    assert Deref(ListOf(args), root) == if da.Found? then Found(Arr(da.value)) else NotFound(da.name);
    assert Deref(Arr(kwargs), root) == if dk.Found? then Found(Arr(dk.value)) else NotFound(dk.name);
    if da.Found? {
      ListOfValues(args);
      ListOfKeyed(da.value);
    }
  }

  /** A list rebuilt from the values of entries keyed 0, 1, ... is those
      entries. */
  lemma ListOfKeyed(a: seq<(string, Value)>)
    requires forall i | 0 <= i < |a| :: a[i].0 == NatToString(i)
    ensures ListOf(ValuesOf(a)) == Arr(a)
  {
    var l := ListOf(ValuesOf(a)).entries;
    assert forall i | 0 <= i < |a| :: l[i] == a[i];
  }

  // ---------------------------------------------------------------------
  // One feature

  /** The arguments a call receives: the positional ones, then the keyword
      map as one trailing argument when it is not empty. */
  function CallArgs(args: seq<Value>, kwargs: seq<(string, Value)>): seq<Value> {
    if |kwargs| > 0 then args + [Arr(kwargs)] else args
  }

  /** What running a feature leaves: its result, the dereferenced expected
      value, whether it passed, and the scope afterwards. */
  datatype Step = Step(result: Value, expected: Value, passed: bool, scope: seq<(string, Value)>)

  /** Lines 283-326: the value of `$result` after the `try` block. A
      feature without a property keeps its expected value, and a path whose
      first name is unbound gives 'ERROR'. */
  function Perform(host: Host, root: Value, f: Feature, args: seq<Value>, kwargs: seq<(string, Value)>, expected: Value): (r: Run<Value>)
    ensures !TruthyStr(f.property) ==> r == Ran(expected)
    ensures TruthyStr(f.property) && Walk(Null, root, Explode(f.property, '.')).NotFound? ==> r == Ran(ErrorSentinel)
  {
    if !TruthyStr(f.property) then Ran(expected)
    else match Walk(Null, root, Explode(f.property, '.'))
      case NotFound(_) => Ran(ErrorSentinel)
      case Found(p) => Execute(host, Decide(host, p, f.call, CallArgs(args, kwargs)))
  }

  /** `test_feature` against the scope `bindings`: comments and skipped
      features pass and change nothing; every other feature is judged by the
      verdict rule, and only an assignment changes the scope. */
  function FeatureStep(host: Host, bindings: seq<(string, Value)>, f: Feature): (r: Run<Step>)
    ensures IsComment(f) || f.skip ==> r == Ran(Step(Null, Null, true, bindings))
    ensures r.Ran? && !IsComment(f) && !f.skip ==> r.value.passed == Verdict(r.value.expected, r.value.result)
    ensures r.Ran? && !TruthyStr(f.assign) ==> r.value.scope == bindings
  {
    if IsComment(f) || f.skip then Ran(Step(Null, Null, true, bindings))
    else
      var root := Arr(bindings);
      match (if f.call then DerefArgs(f.args, f.kwargs, root) else Found((f.args, f.kwargs)))
      case NotFound(_) => Crashed
      case Found(ak) =>
        match Deref(f.result, root)
        case NotFound(_) => Crashed
        case Found(expected) =>
          match Perform(host, root, f, ak.0, ak.1, expected)
          case Crashed => Crashed
          case Ran(result) =>
            if !TruthyStr(f.assign) then Ran(Step(result, expected, Verdict(expected, result), bindings))
            else match AssignAt(root, Explode(f.assign, '.'), result)
              case None => Crashed
              case Some(after) => Ran(Step(result, expected, Verdict(expected, result), after.entries))
  }

  /** A feature that runs compares against its dereferenced expected value
      (the literal itself when it holds no reference), and a feature without
      a property has that value as its result, so it passes whenever that
      value has unique keys. */
  lemma FeatureStepVerdict(host: Host, bindings: seq<(string, Value)>, f: Feature)
    requires FeatureStep(host, bindings, f).Ran? && !IsComment(f) && !f.skip
    ensures var s := FeatureStep(host, bindings, f).value;
      && Deref(f.result, Arr(bindings)) == Found(s.expected)
      && (Concrete(f.result) ==> s.expected == f.result)
      && (!TruthyStr(f.property) ==> s.result == s.expected)
      && (!TruthyStr(f.property) && WellKeyed(s.expected) ==> s.passed)
  {
    var s := FeatureStep(host, bindings, f).value;
    if Concrete(f.result) {
      DerefConcrete(f.result, Arr(bindings));
    }
    if !TruthyStr(f.property) && WellKeyed(s.expected) {
      VerdictReflexive(s.expected);
    }
  }

  // The statement of lines 274-337 as written, with the three readings
  // `DerefArgsAsWritten`, `DecideAsWritten` and `VerdictAsWritten`.

  /** Lines 283-326 as written, on the dereferenced argument list `a` and
      keyword map `k`: `count()` of a keyword value that is not an array,
      `array_push` onto an argument value that is not an array, and spreading
      one, each raise a PHP \Error that ends the run. */
  function PerformAsWritten(host: Host, root: Value, f: Feature, a: Value, k: Value, expected: Value): (r: Run<Value>)
    ensures !TruthyStr(f.property) ==> r == Ran(expected)
    ensures TruthyStr(f.property) && !k.Arr? ==> r.Crashed?
    ensures TruthyStr(f.property) && k.Arr? && |k.entries| > 0 && !a.Arr? ==> r.Crashed?
  {
    if !TruthyStr(f.property) then Ran(expected)
    else if !k.Arr? then Crashed
    else if |k.entries| > 0 && !a.Arr? then Crashed
    else
      var args := if a.Arr? then ValuesOf(a.entries) + (if |k.entries| > 0 then [k] else []) else [];
      match Walk(Null, root, Explode(f.property, '.'))
      case NotFound(_) => Ran(ErrorSentinel)
      case Found(p) =>
        var d := DecideAsWritten(host, p, f.call, args);
        if f.call && d.Invoke? && !a.Arr? then Crashed
        else Execute(host, d)
  }

  /** `test_feature` as written. */
  function FeatureStepAsWritten(host: Host, bindings: seq<(string, Value)>, f: Feature): (r: Run<Step>)
    ensures IsComment(f) || f.skip ==> r == Ran(Step(Null, Null, true, bindings))
    ensures r.Ran? && !IsComment(f) && !f.skip ==> r.value.passed == VerdictAsWritten(r.value.expected, r.value.result)
    ensures r.Ran? && !TruthyStr(f.assign) ==> r.value.scope == bindings
  {
    if IsComment(f) || f.skip then Ran(Step(Null, Null, true, bindings))
    else
      var root := Arr(bindings);
      match (if f.call then DerefArgsAsWritten(f.args, f.kwargs, root) else Found((ListOf(f.args), Arr(f.kwargs))))
      case NotFound(_) => Crashed
      case Found(ak) =>
        match Deref(f.result, root)
        case NotFound(_) => Crashed
        case Found(expected) =>
          match PerformAsWritten(host, root, f, ak.0, ak.1, expected)
          case Crashed => Crashed
          case Ran(result) =>
            if !TruthyStr(f.assign) then Ran(Step(result, expected, VerdictAsWritten(expected, result), bindings))
            else match AssignAt(root, Explode(f.assign, '.'), result)
              case None => Crashed
              case Some(after) => Ran(Step(result, expected, VerdictAsWritten(expected, result), after.entries))
  }

  /** The call the corrected reading makes differently: a closure found in
      the scope (such as `$import`) called with no holder. */
  predicate CallsClosure(root: Value, f: Feature) {
    && f.call && TruthyStr(f.property)
    && var w := Walk(Null, root, Explode(f.property, '.'));
       w.Found? && !w.value.holder.Str? && !Truthy(w.value.holder) && w.value.property.Closure?
  }

  /** On a list and a map that are real arrays, the two readings of the
      `try` block agree, except on a closure call. */
  lemma PerformAgree(host: Host, root: Value, f: Feature, args: seq<Value>, kwargs: seq<(string, Value)>, expected: Value)
    requires !CallsClosure(root, f)
    ensures PerformAsWritten(host, root, f, ListOf(args), Arr(kwargs), expected)
         == Perform(host, root, f, args, kwargs, expected)
  {
    var a := ListOf(args);
    var cargs := CallArgs(args, kwargs);
    assert ValuesOf(a.entries) + (if |kwargs| > 0 then [Arr(kwargs)] else []) == cargs;
    if TruthyStr(f.property) {
      var w := Walk(Null, root, Explode(f.property, '.'));
      if w.Found? {
        assert Decide(host, w.value, f.call, cargs) == DecideAsWritten(host, w.value, f.call, cargs);
      }
    }
  }

  /**
   * The model's `test_feature` against the source's. They crash on the same
   * features and, when both run, compute the same result, expected value
   * and scope; the verdicts differ exactly on a `true` result against a
   * falsy expected value. Excluded are the two inputs on which the source
   * goes wrong: an argument list or keyword map shaped like a reference
   * literal, and a call of a closure held in the scope.
   */
  lemma FeatureStepAgree(host: Host, bindings: seq<(string, Value)>, f: Feature)
    requires f.call ==> !IsReference(ListOf(f.args)) && !IsReference(Arr(f.kwargs))
    requires !CallsClosure(Arr(bindings), f)
    ensures var w := FeatureStepAsWritten(host, bindings, f);
      var c := FeatureStep(host, bindings, f);
      && (w.Crashed? <==> c.Crashed?)
      && (w.Ran? ==>
            && w.value.result == c.value.result
            && w.value.expected == c.value.expected
            && w.value.scope == c.value.scope
            && (w.value.passed != c.value.passed <==> !Truthy(c.value.expected) && c.value.result == Bool(true)))
  {
    var root := Arr(bindings);
    if !IsComment(f) && !f.skip {
      if f.call {
        DerefArgsAgree(f.args, f.kwargs, root);
        var d := DerefArgs(f.args, f.kwargs, root);
        if d.Found? {
          StepAgree(host, bindings, f, d.value.0, d.value.1);
        }
      } else {
        StepAgree(host, bindings, f, f.args, f.kwargs);
      }
    }
  }

  /** `FeatureStepAgree` once the arguments are dereferenced. */
  lemma StepAgree(host: Host, bindings: seq<(string, Value)>, f: Feature, args: seq<Value>, kwargs: seq<(string, Value)>)
    requires !IsComment(f) && !f.skip && !CallsClosure(Arr(bindings), f)
    requires (if f.call then DerefArgs(f.args, f.kwargs, Arr(bindings)) else Found((f.args, f.kwargs))) == Found((args, kwargs))
    requires (if f.call then DerefArgsAsWritten(f.args, f.kwargs, Arr(bindings)) else Found((ListOf(f.args), Arr(f.kwargs))))
          == Found((ListOf(args), Arr(kwargs)))
    ensures var w := FeatureStepAsWritten(host, bindings, f);
      var c := FeatureStep(host, bindings, f);
      && (w.Crashed? <==> c.Crashed?)
      && (w.Ran? ==>
            && w.value.result == c.value.result
            && w.value.expected == c.value.expected
            && w.value.scope == c.value.scope
            && (w.value.passed != c.value.passed <==> !Truthy(c.value.expected) && c.value.result == Bool(true)))
  {
    var root := Arr(bindings);
    match Deref(f.result, root)
    case NotFound(_) =>
    case Found(expected) =>
      PerformAgree(host, root, f, args, kwargs, expected);
      match Perform(host, root, f, args, kwargs, expected)
      case Crashed =>
      case Ran(result) =>
        VerdictAsWrittenDiffers(expected, result);
  }

  /** A feature with an assignment binds its result at the path: reading the
      path afterwards gives the result, and every other top-level name keeps
      its value. */
  lemma FeatureStepAssigns(host: Host, bindings: seq<(string, Value)>, f: Feature, other: string)
    requires FeatureStep(host, bindings, f).Ran? && !IsComment(f) && !f.skip && TruthyStr(f.assign)
    requires other != Explode(f.assign, '.')[0]
    ensures var s := FeatureStep(host, bindings, f).value;
      && Walk(Null, Arr(s.scope), Explode(f.assign, '.')) == Found(Prop(Null, s.result))
      && Lookup(s.scope, other) == Lookup(bindings, other)
  {
    var s := FeatureStep(host, bindings, f).value;
    var names := Explode(f.assign, '.');
    AssignThenWalk(Arr(bindings), names, s.result);
    AssignKeepsOtherKeys(bindings, names, s.result, other);
  }

  /** A call or read whose first name is not in the scope, under either
      spelling, gives 'ERROR', which fails unless 'ERROR' was expected. */
  lemma UnboundNameFails(host: Host, bindings: seq<(string, Value)>, f: Feature)
    requires FeatureStep(host, bindings, f).Ran? && !IsComment(f) && !f.skip && TruthyStr(f.property)
    requires var n := Explode(f.property, '.')[0]; !HasKey(bindings, n) && !HasKey(bindings, ToLower(n))
    ensures var s := FeatureStep(host, bindings, f).value;
      && s.result == ErrorSentinel
      && (s.expected != ErrorSentinel ==> !s.passed)
  {
  }

  /** `test_feature($feature, $scope)`; `$scope` is updated in place. */
  method TestFeature(scope: Scope, host: Host, f: Feature) returns (r: Run<bool>)
    modifies scope
    ensures var step := FeatureStep(host, old(scope.bindings), f);
      && (r.Crashed? <==> step.Crashed?)
      && (r.Ran? ==> r.value == step.value.passed && scope.bindings == step.value.scope)
  {
    if IsComment(f) {
      return Ran(true);
    }
    if f.skip {
      return Ran(true);
    }
    ghost var root := Arr(scope.bindings);
    // Dereference
    var args, kwargs := f.args, f.kwargs;
    if f.call {
      var a := scope.DereferenceEntries(ListOf(f.args).entries);
      if a.NotFound? {
        return Crashed;
      }
      var k := scope.DereferenceEntries(f.kwargs);
      if k.NotFound? {
        return Crashed;
      }
      args, kwargs := ValuesOf(a.value), k.value;
      assert DerefArgs(f.args, f.kwargs, root) == Found((args, kwargs));
    }
    var expected := scope.Dereference(f.result);
    if expected.NotFound? {
      return Crashed;
    }
    // Execute
    var result := expected.value;
    if TruthyStr(f.property) {
      var p := scope.Resolve(f.property);
      if p.NotFound? {
        result := ErrorSentinel;
      } else {
        var run := Execute(host, Decide(host, p.value, f.call, CallArgs(args, kwargs)));
        if run.Crashed? {
          return Crashed;
        }
        result := run.value;
      }
    }
    assert Perform(host, root, f, args, kwargs, expected.value) == Ran(result);
    // Assign
    if TruthyStr(f.assign) {
      var ok := scope.Assign(f.assign, result);
      if !ok {
        return Crashed;
      }
    }
    r := Ran(Verdict(expected.value, result));
  }

  // ---------------------------------------------------------------------
  // One spec

  /** The verdicts of the features run in order over one shared scope, and
      the scope at the end; a crash stops the run. */
  datatype Tally = Tally(verdicts: seq<bool>, scope: seq<(string, Value)>)

  function RunFeatures(host: Host, bindings: seq<(string, Value)>, fs: seq<Feature>): Run<Tally>
    decreases |fs|, 1
  {
    if fs == [] then Ran(Tally([], bindings))
    else RunThen(host, bindings, fs[..|fs| - 1], fs[|fs| - 1])
  }

  /** The features `init`, then `f` against the scope they leave. */
  function RunThen(host: Host, bindings: seq<(string, Value)>, init: seq<Feature>, f: Feature): Run<Tally>
    decreases |init| + 1, 0
  {
    match RunFeatures(host, bindings, init)
    case Crashed => Crashed
    case Ran(t) =>
      match FeatureStep(host, t.scope, f)
      case Crashed => Crashed
      case Ran(s) => Ran(Tally(t.verdicts + [s.passed], s.scope))
  }

  /** A crash ends the run: no later feature is run. */
  lemma {:induction false} RunFeaturesCrashPersists(host: Host, bindings: seq<(string, Value)>, fs: seq<Feature>, n: int)
    requires 0 <= n <= |fs|
    requires RunFeatures(host, bindings, fs[..n]).Crashed?
    ensures RunFeatures(host, bindings, fs).Crashed?
    decreases |fs| - n
  {
    if n < |fs| {
      assert fs[..n + 1][..n] == fs[..n];
      RunFeaturesCrashPersists(host, bindings, fs, n + 1);
    } else {
      assert fs[..n] == fs;
    }
  }

  /** One more feature extends the tally by its verdict. */
  lemma RunFeaturesSnoc(host: Host, bindings: seq<(string, Value)>, fs: seq<Feature>, i: int, t: Tally)
    requires 0 <= i < |fs| && RunFeatures(host, bindings, fs[..i]) == Ran(t)
    ensures FeatureStep(host, t.scope, fs[i]).Crashed? ==> RunFeatures(host, bindings, fs[..i + 1]).Crashed?
    ensures FeatureStep(host, t.scope, fs[i]).Ran? ==>
      var s := FeatureStep(host, t.scope, fs[i]).value;
      && RunFeatures(host, bindings, fs[..i + 1]) == Ran(Tally(t.verdicts + [s.passed], s.scope))
      && Passes(t.verdicts + [s.passed]) == Passes(t.verdicts) + if s.passed then 1 else 0
  {
    var prefix := fs[..i + 1];
    assert prefix[..|prefix| - 1] == fs[..i] && prefix[|prefix| - 1] == fs[i];
    assert RunFeatures(host, bindings, prefix) == RunThen(host, bindings, fs[..i], fs[i]);
    if FeatureStep(host, t.scope, fs[i]).Ran? {
      PassesSnoc(t.verdicts, FeatureStep(host, t.scope, fs[i]).value.passed);
    }
  }

  lemma PassesSnoc(vs: seq<bool>, b: bool)
    ensures Passes(vs + [b]) == Passes(vs) + if b then 1 else 0
  {
    assert (vs + [b])[..|vs|] == vs;
  }

  /** How many verdicts are passes. */
  function Passes(vs: seq<bool>): (n: nat)
    ensures n <= |vs|
  {
    if vs == [] then 0 else Passes(vs[..|vs| - 1]) + (if vs[|vs| - 1] then 1 else 0)
  }

  /** How many features are tests that ran (not comments, not skipped) and
      passed. */
  function RunPasses(fs: seq<Feature>, vs: seq<bool>): nat
    requires |vs| == |fs|
  {
    if fs == [] then 0
    else RunPasses(fs[..|fs| - 1], vs[..|vs| - 1])
         + (if !IsComment(fs[|fs| - 1]) && !fs[|fs| - 1].skip && vs[|vs| - 1] then 1 else 0)
  }

  /** What `test_spec` reports: its success and the "passed/count" pair. */
  datatype Report = Report(success: bool, testsPassed: int, testsCount: int)

  function SpecRun(host: Host, spec: Spec): Run<Report> {
    match RunFeatures(host, spec.scope, spec.features)
    case Crashed => Crashed
    case Ran(t) =>
      var passed := Passes(t.verdicts);
      Ran(Report(passed == spec.stats.features,
                 passed - spec.stats.comments - spec.stats.skipped,
                 spec.stats.tests - spec.stats.skipped))
  }

  /** One verdict per feature; comments and skipped features always pass. */
  lemma {:induction false} RunFeaturesShape(host: Host, bindings: seq<(string, Value)>, fs: seq<Feature>)
    requires RunFeatures(host, bindings, fs).Ran?
    ensures var vs := RunFeatures(host, bindings, fs).value.verdicts;
      && |vs| == |fs|
      && forall i | 0 <= i < |fs| && (IsComment(fs[i]) || fs[i].skip) :: vs[i]
    decreases |fs|
  {
    if fs != [] {
      var init := fs[..|fs| - 1];
      RunFeaturesShape(host, bindings, init);
      var t := RunFeatures(host, bindings, init).value;
      var vs := RunFeatures(host, bindings, fs).value.verdicts;
      forall i | 0 <= i < |fs| && (IsComment(fs[i]) || fs[i].skip) ensures vs[i] {
        if i < |fs| - 1 {
          assert fs[i] == init[i];
        }
      }
    }
  }

  lemma {:induction false} PassesAll(vs: seq<bool>)
    ensures Passes(vs) == |vs| <==> forall i | 0 <= i < |vs| :: vs[i]
    decreases |vs|
  {
    if vs != [] {
      var init := vs[..|vs| - 1];
      PassesAll(init);
      if Passes(vs) == |vs| {
        forall i | 0 <= i < |vs| ensures vs[i] {
          if i < |vs| - 1 { assert vs[i] == init[i]; }
        }
      }
    }
  }

  /** With comments and skipped features passing, the passes split into
      comments, skipped features and tests that ran and passed. */
  lemma {:induction false} PassesSplit(fs: seq<Feature>, vs: seq<bool>)
    requires |vs| == |fs|
    requires forall i | 0 <= i < |fs| && (IsComment(fs[i]) || fs[i].skip) :: vs[i]
    ensures Passes(vs) == Count(fs).comments + Count(fs).skipped + RunPasses(fs, vs)
    decreases |fs|
  {
    if fs != [] {
      var n := |fs| - 1;
      assert forall i | 0 <= i < n && (IsComment(fs[..n][i]) || fs[..n][i].skip) :: vs[..n][i] by {
        forall i | 0 <= i < n && (IsComment(fs[..n][i]) || fs[..n][i].skip) ensures vs[..n][i] {
          assert fs[..n][i] == fs[i] && vs[..n][i] == vs[i];
        }
      }
      PassesSplit(fs[..n], vs[..n]);
    }
  }

  /** How many features are tests that ran (not comments, not skipped). */
  lemma {:induction false} RunPassesBound(fs: seq<Feature>, vs: seq<bool>)
    requires |vs| == |fs|
    ensures RunPasses(fs, vs) <= Count(fs).tests - Count(fs).skipped
    decreases |fs|
  {
    if fs != [] {
      RunPassesBound(fs[..|fs| - 1], vs[..|vs| - 1]);
    }
  }

  /**
   * Line 234: a spec succeeds exactly when every feature passed. Lines
   * 244-245: the reported pair counts the tests that ran and passed, out of
   * the tests that were not skipped.
   */
  lemma SpecReport(host: Host, spec: Spec)
    requires spec.stats == Count(spec.features)
    requires SpecRun(host, spec).Ran?
    ensures var t := RunFeatures(host, spec.scope, spec.features).value;
      var rep := SpecRun(host, spec).value;
      && |t.verdicts| == |spec.features|
      && (rep.success <==> forall i | 0 <= i < |t.verdicts| :: t.verdicts[i])
      && rep.testsPassed == RunPasses(spec.features, t.verdicts)
      && 0 <= rep.testsPassed <= rep.testsCount
  {
    var t := RunFeatures(host, spec.scope, spec.features).value;
    RunFeaturesShape(host, spec.scope, spec.features);
    PassesAll(t.verdicts);
    PassesSplit(spec.features, t.verdicts);
    RunPassesBound(spec.features, t.verdicts);
  }

  /** `test_spec` reports from the tally of the features it ran, or not at
      all when the run crashed. */
  lemma SpecRunOf(host: Host, spec: Spec, run: Run<Tally>)
    requires RunFeatures(host, spec.scope, spec.features) == run
    ensures run.Crashed? ==> SpecRun(host, spec) == Crashed
    ensures run.Ran? ==>
      var passed := Passes(run.value.verdicts);
      SpecRun(host, spec) == Ran(Report(passed == spec.stats.features,
                                        passed - spec.stats.comments - spec.stats.skipped,
                                        spec.stats.tests - spec.stats.skipped))
  {
  }

  /** One turn of the loop of lines 232-233: the next feature against the
      shared scope, which extends the tally or ends the run. */
  method TestNext(scope: Scope, host: Host, ghost start: seq<(string, Value)>, fs: seq<Feature>, i: nat,
                  ghost verdicts: seq<bool>) returns (ok: Run<bool>)
    requires i < |fs| && RunFeatures(host, start, fs[..i]) == Ran(Tally(verdicts, scope.bindings))
    modifies scope
    ensures ok.Crashed? ==> RunFeatures(host, start, fs).Crashed?
    ensures ok.Ran? ==> RunFeatures(host, start, fs[..i + 1]) == Ran(Tally(verdicts + [ok.value], scope.bindings))
    ensures ok.Ran? ==> Passes(verdicts + [ok.value]) == Passes(verdicts) + if ok.value then 1 else 0
  {
    RunFeaturesSnoc(host, start, fs, i, Tally(verdicts, scope.bindings));
    ok := TestFeature(scope, host, fs[i]);
    if ok.Crashed? {
      RunFeaturesCrashPersists(host, start, fs, i + 1);
    }
  }

  /** The loop of lines 232-233: every feature against one scope, counting
      passes, until the end or a crash. */
  method RunAll(spec: Spec, host: Host) returns (crashed: bool, passed: nat)
    ensures crashed <==> RunFeatures(host, spec.scope, spec.features).Crashed?
    ensures !crashed ==> passed == Passes(RunFeatures(host, spec.scope, spec.features).value.verdicts)
  {
    var fs := spec.features;
    var scope := new Scope(spec.scope);
    passed := 0;
    ghost var verdicts: seq<bool> := [];
    var i := 0;
    while i < |fs|
      invariant 0 <= i <= |fs|
      invariant RunFeatures(host, spec.scope, fs[..i]) == Ran(Tally(verdicts, scope.bindings))
      invariant passed == Passes(verdicts)
    {
      var ok := TestNext(scope, host, spec.scope, fs, i, verdicts);
      if ok.Crashed? {
        return true, passed;
      }
      verdicts := verdicts + [ok.value];
      passed := passed + if ok.value then 1 else 0;
      i := i + 1;
    }
    assert fs[..|fs|] == fs;
    crashed := false;
  }

  /** `test_spec`: the run, then the report from its tally. */
  method TestSpec(spec: Spec, host: Host) returns (r: Run<Report>)
    ensures r == SpecRun(host, spec)
  {
    var crashed, passed := RunAll(spec, host);
    SpecRunOf(host, spec, RunFeatures(host, spec.scope, spec.features));
    if crashed {
      return Crashed;
    }
    var stats := spec.stats;
    r := Ran(Report(passed == stats.features, passed - stats.comments - stats.skipped, stats.tests - stats.skipped));
  }
}
