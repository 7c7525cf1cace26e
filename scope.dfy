/**
 * Scope resolution over the mutable scope array: `get_property`
 * (src/cli.php:406-423), the dotted-path walk of `test_feature`
 * (src/cli.php:290-293), the assignment walk through references
 * (src/cli.php:328-334) and `dereference_value` (src/cli.php:389-403).
 */
module Scopes {
  import opened Values

  /** The pair `[$object, $property]` that `get_property` hands back. */
  datatype Prop = Prop(holder: Value, property: Value)

  /** What the walk guarantees about the pair it stops at: a holder that is
      not null is a scalar or an object, and the member named on it is a
      string. */
  predicate Settled(p: Prop) {
    p.holder != Null ==> p.property.Str? && !p.holder.Arr?
  }

  /** A lookup either finds its value or raises the source's exception
      "No <name> in the scope". */
  datatype Resolved<+T> = Found(value: T) | NotFound(name: string)

  // ---------------------------------------------------------------------
  // get_property

  /** On an array owner: the value under `name`, or failing that under its
      lower-cased form, with no object. On any other owner: the owner itself
      as the object, and the name as the member to reach on it. */
  function GetProperty(owner: Value, name: string): (r: Resolved<Prop>)
    ensures owner.Arr? ==> (r.Found? <==> HasKey(owner.entries, name) || HasKey(owner.entries, ToLower(name)))
    ensures owner.Arr? && r.Found? ==> r.value.holder == Null
    ensures owner.Arr? && HasKey(owner.entries, name) ==> r.value.property == Lookup(owner.entries, name).value
    ensures owner.Arr? && r.NotFound? ==> r.name == name
    ensures !owner.Arr? ==> r == Found(Prop(owner, Str(name)))
  {
    match owner
    case Arr(e) =>
      if HasKey(e, name) then Found(Prop(Null, Lookup(e, name).value))
      else if HasKey(e, ToLower(name)) then Found(Prop(Null, Lookup(e, ToLower(name)).value))
      else NotFound(name)
    case _ => Found(Prop(owner, Str(name)))
  }

  /** The lower-case fallback is used only when the exact key is absent. */
  lemma GetPropertyFallback(e: seq<(string, Value)>, name: string)
    requires !HasKey(e, name) && HasKey(e, ToLower(name))
    ensures GetProperty(Arr(e), name) == Found(Prop(Null, Lookup(e, ToLower(name)).value))
  {
  }

  /** A key just written is what `get_property` reads back. */
  lemma GetPropertyAfterPut(e: seq<(string, Value)>, k: string, v: Value)
    ensures GetProperty(Arr(Put(e, k, v)), k) == Found(Prop(Null, v))
  {
    PutFinds(e, k, v);
  }

  // ---------------------------------------------------------------------
  // The property walk (src/cli.php:285-293)

  /** The loop `foreach (explode('.', $path) as $name)`, from the pair
      `(obj, prop)`: each step reads `name` from the current property, and the
      walk stops as soon as the step names a truthy object. */
  function Walk(obj: Value, prop: Value, names: seq<string>): (r: Resolved<Prop>)
    requires Settled(Prop(obj, prop))
    ensures r.Found? ==> Settled(r.value)
    decreases |names|
  {
    if names == [] then Found(Prop(obj, prop))
    else match GetProperty(prop, names[0])
      case NotFound(n) => NotFound(n)
      case Found(p) => if Truthy(p.holder) then Found(p) else Walk(p.holder, p.property, names[1..])
  }

  /** The walk never goes past the first object: once a step reaches a truthy
      non-array value, the rest of the path ends with the name of a member of
      it, and later names are ignored. */
  lemma {:induction false} WalkStopsAtObject(obj: Value, prop: Value, names: seq<string>, i: int, owner: Value)
    requires 0 <= i < |names|
    requires Settled(Prop(obj, prop))
    requires Walk(obj, prop, names[..i]) == Found(Prop(Null, owner))
    requires !owner.Arr? && Truthy(owner)
    ensures Walk(obj, prop, names) == Found(Prop(owner, Str(names[i])))
    decreases i
  {
    if i == 0 {
      assert obj == Null && prop == owner;
    } else {
      assert names[..i][0] == names[0];
      assert names[..i][1..] == names[1..][..i - 1];
      var step := GetProperty(prop, names[0]);
      if step.Found? && !Truthy(step.value.holder) {
        WalkStopsAtObject(step.value.holder, step.value.property, names[1..], i - 1, owner);
      }
    }
  }

  // ---------------------------------------------------------------------
  // Assignment through references (src/cli.php:328-334)

  /** `$temp = &$temp[$name]` needs an array: null and false are silently
      turned into an empty one; any other scalar or an object raises a PHP
      \Error that nothing catches. */
  function Vivify(c: Value): Option<seq<(string, Value)>> {
    match c
    case Arr(e) => Some(e)
    case Null => Some([])
    case Bool(b) => if b then None else Some([])
    case _ => None
  }

  /** `c` after binding `v` at the path `names` below it; None when the walk
      meets a value it cannot index. Missing keys are created on the way. */
  function AssignAt(c: Value, names: seq<string>, v: Value): Option<Value>
    decreases |names|
  {
    if names == [] then Some(v)
    else match Vivify(c)
      case None => None
      case Some(e) =>
        match AssignAt(LookupOr(e, names[0]), names[1..], v)
        case None => None
        case Some(child) => Some(Arr(Put(e, names[0], child)))
  }

  /** After an assignment the path resolves, through arrays only, to the
      assigned value. */
  lemma {:induction false} AssignThenWalk(c: Value, names: seq<string>, v: Value)
    requires AssignAt(c, names, v).Some?
    ensures Walk(Null, AssignAt(c, names, v).value, names) == Found(Prop(Null, v))
    decreases |names|
  {
    if names != [] {
      var e := Vivify(c).value;
      var child := AssignAt(LookupOr(e, names[0]), names[1..], v).value;
      GetPropertyAfterPut(e, names[0], child);
      AssignThenWalk(LookupOr(e, names[0]), names[1..], v);
    }
  }

  /** An assignment touches only the top-level key its path starts with. */
  lemma AssignKeepsOtherKeys(e: seq<(string, Value)>, names: seq<string>, v: Value, k: string)
    requires |names| >= 1 && k != names[0]
    requires AssignAt(Arr(e), names, v).Some?
    ensures AssignAt(Arr(e), names, v).value.Arr?
    ensures Lookup(AssignAt(Arr(e), names, v).value.entries, k) == Lookup(e, k)
  {
    var child := AssignAt(LookupOr(e, names[0]), names[1..], v).value;
    PutKeepsOthers(e, names[0], child, k);
  }

  /** The top-level keys keep their order; a new first segment is appended. */
  lemma AssignKeepsKeyOrder(e: seq<(string, Value)>, names: seq<string>, v: Value)
    requires |names| >= 1 && AssignAt(Arr(e), names, v).Some?
    ensures AssignAt(Arr(e), names, v).value.Arr?
    ensures Keys(AssignAt(Arr(e), names, v).value.entries)
         == if HasKey(e, names[0]) then Keys(e) else Keys(e) + [names[0]]
  {
    var child := AssignAt(LookupOr(e, names[0]), names[1..], v).value;
    PutKeys(e, names[0], child);
  }

  /** The containers met on the way down, wrapped back around `inner`. */
  ghost function Rebuild(frames: seq<seq<(string, Value)>>, names: seq<string>, inner: Option<Value>): Option<Value>
    requires |frames| == |names|
    decreases |frames|
  {
    if frames == [] || inner.None? then inner
    else
      var n := |frames| - 1;
      Rebuild(frames[..n], names[..n], Some(Arr(Put(frames[n], names[n], inner.value))))
  }

  lemma {:induction false} RebuildNone(frames: seq<seq<(string, Value)>>, names: seq<string>)
    requires |frames| == |names|
    ensures Rebuild(frames, names, None) == None
  {
  }

  // ---------------------------------------------------------------------
  // dereference_value (src/cli.php:389-403)

  /** A reference literal: an array with one entry whose value is `== null`. */
  predicate IsReference(v: Value) {
    v.Arr? && |v.entries| == 1 && Nullish(v.entries[0].1)
  }

  /** Lines 391-395: follow a dotted path from `x`, each step taking the
      property `get_property` gives (there is no stop at objects here). */
  function Follow(x: Value, names: seq<string>): Resolved<Value>
    decreases |names|
  {
    if names == [] then Found(x)
    else match GetProperty(x, names[0])
      case NotFound(n) => NotFound(n)
      case Found(p) => Follow(p.property, names[1..])
  }

  /** Following `a + b` is following `a`, then `b` from where it ended. */
  lemma {:induction false} FollowConcat(x: Value, a: seq<string>, b: seq<string>)
    ensures Follow(x, a + b) == match Follow(x, a)
      case Found(y) => Follow(y, b)
      case NotFound(n) => NotFound(n)
    decreases |a|
  {
    if a == [] {
      assert a + b == b;
    } else {
      assert (a + b)[0] == a[0] && (a + b)[1..] == a[1..] + b;
      match GetProperty(x, a[0])
      case NotFound(_) =>
      case Found(p) => FollowConcat(p.property, a[1..], b);
    }
  }

  /** `dereference_value($v, $scope)`; `root` is the scope array. */
  function Deref(v: Value, root: Value): (r: Resolved<Value>)
    ensures !v.Arr? ==> r == Found(v)
    ensures v.Arr? && !IsReference(v) && r.Found? ==> r.value.Arr? && Keys(r.value.entries) == Keys(v.entries)
    decreases v, 1, 0
  {
    match v
    case Arr(e) =>
      if IsReference(v) then Follow(root, Explode(e[0].0, '.'))
      else
        (match DerefEntries(e, 0, root)
         case NotFound(n) => NotFound(n)
         case Found(d) => Found(Arr(d)))
    case _ => Found(v)
  }

  /** The loop of lines 398-400 from entry `i` on: same keys, each value
      dereferenced, the first failure raised. */
  function DerefEntries(e: seq<(string, Value)>, i: nat, root: Value): (r: Resolved<seq<(string, Value)>>)
    requires i <= |e|
    ensures r.Found? ==> |r.value| == |e| - i
    ensures r.Found? ==> forall k | 0 <= k < |r.value| ::
      r.value[k].0 == e[i + k].0 && Deref(e[i + k].1, root) == Found(r.value[k].1)
    decreases Arr(e), 0, |e| - i
  {
    if i == |e| then Found([])
    else match Deref(e[i].1, root)
      case NotFound(n) => NotFound(n)
      case Found(x) =>
        match DerefEntries(e, i + 1, root)
        case NotFound(n) => NotFound(n)
        case Found(rest) => Found([(e[i].0, x)] + rest)
  }

  /** A container that is not a reference keeps its keys and size, and each
      of its values is dereferenced in turn. */
  lemma DerefContainer(e: seq<(string, Value)>, root: Value)
    requires !IsReference(Arr(e)) && Deref(Arr(e), root).Found?
    ensures var d := Deref(Arr(e), root).value;
      && d.Arr? && |d.entries| == |e|
      && forall k | 0 <= k < |e| :: d.entries[k].0 == e[k].0 && Deref(e[k].1, root) == Found(d.entries[k].1)
  {
  }

  /** A reference to a top-level name resolves to what the scope holds. */
  lemma DerefReference(root: seq<(string, Value)>, name: string, marker: Value)
    requires '.' !in name && Nullish(marker) && HasKey(root, name)
    ensures Deref(Arr([(name, marker)]), Arr(root)) == Found(Lookup(root, name).value)
  {
    ExplodeNoSep(name, '.');
    assert [name][1..] == [];
    assert Follow(Lookup(root, name).value, []) == Found(Lookup(root, name).value);
  }

  /** A dotted reference resolves its first name in the scope, then the rest
      of the path from there. */
  lemma DerefDotted(root: seq<(string, Value)>, name: string, rest: string, marker: Value)
    requires '.' !in name && Nullish(marker) && HasKey(root, name)
    ensures Deref(Arr([(name + "." + rest, marker)]), Arr(root))
         == Follow(Lookup(root, name).value, Explode(rest, '.'))
  {
    ExplodeJoin(name, rest, '.');
    FollowConcat(Arr(root), [name], Explode(rest, '.'));
    assert [name][1..] == [];
  }

  lemma ExplodeJoin(name: string, rest: string, d: char)
    requires d !in name
    ensures Explode(name + [d] + rest, d) == [name] + Explode(rest, d)
  {
    var s := name + [d] + rest;
    ExplodeCut(s, d);
    var r := Explode(s, d);
    FirstPiece(s, d, name);
    assert s[0..|name|] == name && PieceAt(s, d, name, 0);
    assert s[..|name|] == name && s[|name| + 1..] == rest;
    assert r == [r[0]] + r[1..];
  }

  lemma {:induction false} ExplodeNoSep(s: string, d: char)
    requires d !in s
    ensures Explode(s, d) == [s]
    decreases |s|
  {
    if s != "" {
      ExplodeNoSep(s[1..], d);
      assert [s[0]] + s[1..] == s;
    }
  }

  /** No reference literal anywhere inside. */
  predicate Concrete(v: Value)
    decreases v
  {
    match v
    case Arr(e) => !IsReference(v) && (forall i | 0 <= i < |e| :: Concrete(e[i].1))
    case _ => true
  }

  /** Dereferencing leaves a value without reference literals as it is. */
  lemma {:induction false} DerefConcrete(v: Value, root: Value)
    requires Concrete(v)
    ensures Deref(v, root) == Found(v)
    decreases v, 1
  {
    if v.Arr? {
      DerefEntriesConcrete(v.entries, 0, root);
      assert v.entries[0..] == v.entries;
    }
  }

  lemma {:induction false} DerefEntriesConcrete(e: seq<(string, Value)>, i: nat, root: Value)
    requires i <= |e|
    requires forall k | 0 <= k < |e| :: Concrete(e[k].1)
    ensures DerefEntries(e, i, root) == Found(e[i..])
    decreases Arr(e), 0, |e| - i
  {
    if i < |e| {
      DerefConcrete(e[i].1, root);
      DerefEntriesConcrete(e, i + 1, root);
      assert e[i..] == [e[i]] + e[i + 1..];
    }
  }

  // ---------------------------------------------------------------------
  // The scope array of one spec, updated in place by assignments

  /** `Found(prefix + x)` for `Found(x)`; a failure passes through. */
  function Prepend(prefix: seq<(string, Value)>, r: Resolved<seq<(string, Value)>>): Resolved<seq<(string, Value)>> {
    match r
    case Found(x) => Found(prefix + x)
    case NotFound(n) => NotFound(n)
  }

  lemma PrependNil(r: Resolved<seq<(string, Value)>>)
    ensures Prepend([], r) == r
  {
    if r.Found? {
      assert [] + r.value == r.value;
    }
  }

  lemma PrependTwice(p: seq<(string, Value)>, q: seq<(string, Value)>, r: Resolved<seq<(string, Value)>>)
    ensures Prepend(p, Prepend(q, r)) == Prepend(p + q, r)
  {
    if r.Found? {
      assert p + (q + r.value) == (p + q) + r.value;
    }
  }

  class Scope {
    /** The entries of the scope array. */
    var bindings: seq<(string, Value)>

    constructor (initial: seq<(string, Value)>)
      ensures bindings == initial
    {
      bindings := initial;
    }

    /** The property walk of lines 285-293 for a dotted path. */
    method Resolve(path: string) returns (r: Resolved<Prop>)
      ensures r == Walk(Null, Arr(bindings), Explode(path, '.'))
    {
      var names := Explode(path, '.');
      var holder := Null;
      var property := Arr(bindings);
      var i := 0;
      while i < |names|
        invariant 0 <= i <= |names|
        invariant Settled(Prop(holder, property))
        invariant Walk(Null, Arr(bindings), names) == Walk(holder, property, names[i..])
      {
        assert names[i..][0] == names[i] && names[i..][1..] == names[i + 1..];
        var step := GetProperty(property, names[i]);
        if step.NotFound? {
          return NotFound(step.name);
        }
        holder, property := step.value.holder, step.value.property;
        if Truthy(holder) {
          return Found(Prop(holder, property));
        }
        i := i + 1;
      }
      r := Found(Prop(holder, property));
    }

    /** Lines 391-395: the value a reference path leads to. */
    method FollowPath(path: string) returns (r: Resolved<Value>)
      ensures r == Follow(Arr(bindings), Explode(path, '.'))
    {
      var names := Explode(path, '.');
      var result := Arr(bindings);
      var i := 0;
      while i < |names|
        invariant 0 <= i <= |names|
        invariant Follow(Arr(bindings), names) == Follow(result, names[i..])
      {
        assert names[i..][0] == names[i] && names[i..][1..] == names[i + 1..];
        var step := GetProperty(result, names[i]);
        if step.NotFound? {
          return NotFound(step.name);
        }
        result := step.value.property;
        i := i + 1;
      }
      r := Found(result);
    }

    /** `dereference_value($v, $scope)`. */
    method Dereference(v: Value) returns (r: Resolved<Value>)
      ensures r == Deref(v, Arr(bindings))
      decreases v, 1
    {
      if !v.Arr? {
        return Found(v);
      }
      if IsReference(v) {
        r := FollowPath(v.entries[0].0);
        return;
      }
      var d := DereferenceEntries(v.entries);
      match d {
        case NotFound(n) => r := NotFound(n);
        case Found(out) => r := Found(Arr(out));
      }
    }

    /** Lines 397-401: each entry of a container dereferenced and written
        back over a copy, key by key. */
    method DereferenceEntries(e: seq<(string, Value)>) returns (r: Resolved<seq<(string, Value)>>)
      ensures r == DerefEntries(e, 0, Arr(bindings))
      decreases Arr(e), 0
    {
      var out := e;
      var i := 0;
      PrependNil(DerefEntries(e, 0, Arr(bindings)));
      while i < |e|
        invariant 0 <= i <= |e| && |out| == |e|
        invariant out[i..] == e[i..]
        invariant DerefEntries(e, 0, Arr(bindings)) == Prepend(out[..i], DerefEntries(e, i, Arr(bindings)))
      {
        var x := Dereference(e[i].1);
        if x.NotFound? {
          assert DerefEntries(e, i, Arr(bindings)) == NotFound(x.name);
          return NotFound(x.name);
        }
        ghost var tail := DerefEntries(e, i + 1, Arr(bindings));
        assert DerefEntries(e, i, Arr(bindings)) == Prepend([(e[i].0, x.value)], tail);
        out := out[i := (e[i].0, x.value)];
        assert out[..i + 1] == out[..i] + [(e[i].0, x.value)];
        assert out[i + 1..] == e[i + 1..];
        PrependTwice(out[..i], [(e[i].0, x.value)], tail);
        i := i + 1;
      }
      assert out[..|e|] == out && out + [] == out;
      r := Found(out);
    }

    /** Lines 328-334: bind `v` at a dotted path, creating missing entries.
        `false` means PHP raised an \Error on the way, which ends the run. */
    method Assign(path: string, v: Value) returns (ok: bool)
      modifies this
      ensures ok <==> AssignAt(Arr(old(bindings)), Explode(path, '.'), v).Some?
      ensures ok ==> Arr(bindings) == AssignAt(Arr(old(bindings)), Explode(path, '.'), v).value
      ensures !ok ==> bindings == old(bindings)
    {
      var names := Explode(path, '.');
      var frames := Descend(Arr(bindings), names, v);
      if frames.None? {
        return false;
      }
      var acc := Ascend(frames.value, names, v);
      bindings := acc.entries;
      ok := true;
    }
  }

  /** The way down of lines 330-332: the containers the reference passes
      through, or None when it meets a value it cannot index. */
  method Descend(root: Value, names: seq<string>, v: Value) returns (frames: Option<seq<seq<(string, Value)>>>)
    ensures frames.None? ==> AssignAt(root, names, v).None?
    ensures frames.Some? ==> |frames.value| == |names| && AssignAt(root, names, v) == Rebuild(frames.value, names, Some(v))
  {
    var fs: seq<seq<(string, Value)>> := [];
    var cur := root;
    var i := 0;
    while i < |names|
      invariant 0 <= i <= |names| && |fs| == i
      invariant AssignAt(root, names, v) == Rebuild(fs, names[..i], AssignAt(cur, names[i..], v))
    {
      assert names[i..][0] == names[i] && names[i..][1..] == names[i + 1..];
      var e := Vivify(cur);
      if e.None? {
        RebuildNone(fs, names[..i]);
        return None;
      }
      assert (fs + [e.value])[..i] == fs && names[..i + 1][..i] == names[..i];
      fs := fs + [e.value];
      cur := LookupOr(e.value, names[i]);
      i := i + 1;
    }
    assert names[..|names|] == names;
    frames := Some(fs);
  }

  /** The way back up (line 333): each container receives the value built
      below it; the outermost is the new scope. */
  method Ascend(frames: seq<seq<(string, Value)>>, names: seq<string>, v: Value) returns (acc: Value)
    requires |frames| == |names| > 0
    ensures acc.Arr? && Rebuild(frames, names, Some(v)) == Some(acc)
  {
    acc := v;
    var j := |frames|;
    assert frames[..j] == frames && names[..j] == names;
    while j > 0
      invariant 0 <= j <= |frames|
      invariant j < |frames| ==> acc.Arr?
      invariant Rebuild(frames, names, Some(v)) == Rebuild(frames[..j], names[..j], Some(acc))
    {
      assert frames[..j][..j - 1] == frames[..j - 1] && names[..j][..j - 1] == names[..j - 1];
      j := j - 1;
      acc := Arr(Put(frames[j], names[j], acc));
    }
  }
}
