/**
 * The execution step of `test_feature` (src/cli.php:283-326) as a decision
 * over tagged handles, and the verdict (src/cli.php:337).
 *
 * PHP's reflection (`$object::$property(...)`, `$object->$property(...)`,
 * `new $property(...)`, `$property(...)`) is foreign: the host supplies the
 * names `get_declared_classes()` and `get_defined_functions()['user']`
 * report, and an uninterpreted `invoke` that says what a call does.
 */
module Dispatch {
  import opened Values
  import opened Scopes

  /** One call the interpreter can make. `args` are already spread. */
  datatype Invocation =
    | StaticCall(cls: string, member: string, args: seq<Value>)      // $object::$property(...$args)
    | MethodCall(target: Value, member: string, args: seq<Value>)    // $object->$property(...$args)
    | Construct(cls: string, args: seq<Value>)                       // new $property(...$args)
    | CallFunction(name: string, args: seq<Value>)                   // $property(...$args)
    | CallClosure(closure: nat, args: seq<Value>)                    // $property(...$args) on a closure

  /** What a call does: return a value, raise an \Exception (caught, the
      result becomes 'ERROR'), or raise an \Error (nothing catches it). */
  datatype Outcome = Returned(value: Value) | Raised | Aborted

  datatype Host = Host(classes: set<string>, functions: set<string>, invoke: Invocation -> Outcome)

  /** The branch lines 294-320 take. `Throw` is the "Call to undefined
      function" exception; `Fatal` is a PHP \Error raised by the call
      expression itself (a member call on an int or `true`, or `true(...)`). */
  datatype Decision = Invoke(inv: Invocation) | Read(value: Value) | Throw | Fatal

  /** `in_array($property, get_defined_functions()['user'])` under PHP 8's
      loose comparison: a string matches by equality, `true` matches any
      non-empty name, and nothing else matches a string. */
  predicate InUserFunctions(host: Host, property: Value) {
    (property.Str? && property.s in host.functions) || (property == Bool(true) && host.functions != {})
  }

  /** The branches exactly as src/cli.php:294-320 has them. */
  function DecideAsWritten(host: Host, p: Prop, call: bool, args: seq<Value>): (d: Decision)
    requires Settled(p)
    ensures !call ==> !d.Throw? && (d.Invoke? ==> d.inv.args == [] && (d.inv.StaticCall? || d.inv.MethodCall?))
    ensures d.Invoke? && d.inv.Construct? ==> call && d.inv.cls in host.classes
    ensures d.Invoke? && d.inv.CallFunction? ==> call && d.inv.name in host.functions
    ensures !d.Invoke? || !d.inv.CallClosure?
    ensures d.Read? <==> !call && !p.holder.Str? && !Truthy(p.holder)
    ensures d.Read? ==> d.value == p.property
  {
    if p.holder.Str? then Invoke(StaticCall(p.holder.s, p.property.s, if call then args else []))
    else if Truthy(p.holder) then
      if p.holder.Obj? || p.holder.Closure? then Invoke(MethodCall(p.holder, p.property.s, if call then args else []))
      else Fatal
    else if !call then Read(p.property)
    else if p.property.Str? && p.property.s in host.classes then Invoke(Construct(p.property.s, args))
    else if !InUserFunctions(host, p.property) then Throw
    else if p.property.Str? then Invoke(CallFunction(p.property.s, args))
    else Fatal
  }

  /** The branches with closures callable: a scope value that is a closure
      (such as `$import`) is invoked; every other case is as written. */
  function Decide(host: Host, p: Prop, call: bool, args: seq<Value>): (d: Decision)
    requires Settled(p)
    ensures !call ==> !d.Throw? && (d.Invoke? ==> d.inv.args == [] && (d.inv.StaticCall? || d.inv.MethodCall?))
    ensures d.Invoke? && d.inv.Construct? ==> call && d.inv.cls in host.classes
    ensures d.Invoke? && d.inv.CallFunction? ==> call && d.inv.name in host.functions
    ensures d.Invoke? && d.inv.CallClosure? ==> call && p.property == Closure(d.inv.closure)
    ensures d.Read? <==> !call && !p.holder.Str? && !Truthy(p.holder)
    ensures d.Read? ==> d.value == p.property
  {
    if call && !p.holder.Str? && !Truthy(p.holder) && p.property.Closure? then
      Invoke(CallClosure(p.property.id, args))
    else DecideAsWritten(host, p, call, args)
  }

  /** As written, calling a closure held in the scope (the `$import`
      builtin) is refused: a closure never equals a function name. */
  lemma ClosureRefusedAsWritten(host: Host, id: nat, args: seq<Value>)
    ensures DecideAsWritten(host, Prop(Null, Closure(id)), true, args) == Throw
    ensures Decide(host, Prop(Null, Closure(id)), true, args) == Invoke(CallClosure(id, args))
  {
  }

  /** A call is refused with the "undefined function" exception exactly when
      nothing was found to call: no object or class holder, no declared
      class, no closure and no user function. */
  lemma DecideThrows(host: Host, p: Prop, call: bool, args: seq<Value>)
    requires Settled(p)
    ensures Decide(host, p, call, args) == Throw <==>
      && call && !p.holder.Str? && !Truthy(p.holder)
      && !(p.property.Str? && p.property.s in host.classes)
      && !p.property.Closure?
      && !InUserFunctions(host, p.property)
  {
  }

  /** A holder found on the path takes the call, with the member named by
      the segment after it. */
  lemma DecideOnHolder(host: Host, p: Prop, call: bool, args: seq<Value>)
    requires Settled(p) && p.holder != Null && (p.holder.Str? || Truthy(p.holder))
    ensures var d := Decide(host, p, call, args);
      && (p.holder.Str? ==> d == Invoke(StaticCall(p.holder.s, p.property.s, if call then args else [])))
      && (p.holder.Obj? || p.holder.Closure? ==> d == Invoke(MethodCall(p.holder, p.property.s, if call then args else [])))
      && (p.holder.Int? || p.holder.Bool? ==> d == Fatal)
  {
  }

  /** After `x.y=` binds `v`, a feature reading `x.y` gets `v` back. */
  lemma AssignThenRead(host: Host, root: Value, names: seq<string>, v: Value)
    requires AssignAt(root, names, v).Some?
    ensures Walk(Null, AssignAt(root, names, v).value, names) == Found(Prop(Null, v))
    ensures Execute(host, Decide(host, Prop(Null, v), false, [])) == Ran(v)
  {
    AssignThenWalk(root, names, v);
  }

  /** A run that crashes, or the value it goes on with. */
  datatype Run<+T> = Ran(value: T) | Crashed

  /** What the `try` block leaves in `$result`: 'ERROR' exactly when the
      "undefined function" exception or the call raised an \Exception (or
      the call or read itself produced 'ERROR'); a crash exactly when an
      \Error was raised; otherwise the value returned or read. */
  function Execute(host: Host, d: Decision): (r: Run<Value>)
    ensures r == Ran(ErrorSentinel) <==>
      || d.Throw?
      || (d.Invoke? && (host.invoke(d.inv) == Raised || host.invoke(d.inv) == Returned(ErrorSentinel)))
      || d == Read(ErrorSentinel)
    ensures r.Crashed? <==> d.Fatal? || (d.Invoke? && host.invoke(d.inv) == Aborted)
    ensures r.Ran? && r.value != ErrorSentinel ==>
      (d.Read? && r.value == d.value) || (d.Invoke? && host.invoke(d.inv) == Returned(r.value))
  {
    match d
    case Invoke(inv) =>
      (match host.invoke(inv)
       case Returned(v) => Ran(v)
       case Raised => Ran(ErrorSentinel)
       case Aborted => Crashed)
    case Read(v) => Ran(v)
    case Throw => Ran(ErrorSentinel)
    case Fatal => Crashed
  }

  // ---------------------------------------------------------------------
  // Verdict (src/cli.php:337)

  /** `$feature['result'] ? $result == $feature['result'] : $result != 'ERROR'`,
      with `Equal` for PHP's `==` between an actual and an expected value:
      'ERROR' passes exactly when 'ERROR' was expected. */
  predicate Verdict(expected: Value, result: Value)
    ensures result == ErrorSentinel ==> (Verdict(expected, result) <==> expected == ErrorSentinel)
  {
    if Truthy(expected) then Equal(result, expected) else result != ErrorSentinel
  }

  /** An actual value that is the expected one passes. */
  lemma VerdictReflexive(v: Value)
    requires WellKeyed(v)
    ensures Verdict(v, v)
  {
    if Truthy(v) {
      EqualReflexive(v);
    }
  }

  /** Key order does not matter to the verdict. */
  lemma VerdictIgnoresOrder(actual: seq<(string, Value)>, expected: seq<(string, Value)>)
    requires WellKeyed(Arr(actual)) && |expected| > 0
    requires forall k :: Lookup(actual, k) == Lookup(expected, k)
    ensures Verdict(Arr(expected), Arr(actual))
  {
    EqualIgnoresOrder(actual, expected);
  }

  /** `$result != 'ERROR'` under PHP 8's loose comparison: `true == 'ERROR'`
      holds because the string is truthy; every other non-string compares
      unequal. */
  predicate LooseEqualsError(result: Value) {
    result == Bool(true) || result == ErrorSentinel
  }

  /** The verdict with the source's loose comparison in the "must not raise"
      branch: stricter than `Verdict`, every result it passes `Verdict`
      passes too. */
  predicate VerdictAsWritten(expected: Value, result: Value)
    ensures VerdictAsWritten(expected, result) ==> Verdict(expected, result)
  {
    if Truthy(expected) then Equal(result, expected) else !LooseEqualsError(result)
  }

  /** As written, a call declared "must not raise" that returns `true` fails. */
  lemma TrueFailsAsWritten()
    ensures !VerdictAsWritten(Null, Bool(true))
    ensures Verdict(Null, Bool(true))
  {
  }

  /** The two verdicts differ on `true` and only there. */
  lemma VerdictAsWrittenDiffers(expected: Value, result: Value)
    ensures VerdictAsWritten(expected, result) != Verdict(expected, result)
      <==> !Truthy(expected) && result == Bool(true)
  {
  }
}
