/**
 * The feature parser (`parse_feature`, src/cli.php:102-201): one node of a
 * spec document becomes a feature record.
 *
 * A field the source leaves unset is given its falsy value here (an absent
 * comment, assignment or property is "", an absent result is null); every
 * use of those fields in the source tests their truthiness, so nothing is
 * lost. The diagnostic `text` field is not modelled.
 */
module Features {
  import opened Values
  import opened Syntax

  datatype Feature = Feature(
    comment: string,
    skip: bool,
    call: bool,
    assign: string,
    property: string,
    args: seq<Value>,
    kwargs: seq<(string, Value)>,
    result: Value)

  /** Why a node could not be parsed: the source's own "Non-valid feature"
      exception, or a PHP TypeError for a node that is neither a string nor
      an array (an \Error, which no `catch (\Exception)` stops). */
  datatype ParseError = Malformed | TypeFault

  datatype Result<+T> = Ok(value: T) | Err(error: ParseError)

  /** How the interpreter tells a comment: `if ($feature['comment'])`. */
  predicate IsComment(f: Feature) {
    TruthyStr(f.comment)
  }

  // ---------------------------------------------------------------------
  // Comments (src/cli.php:105-113)

  /** A string node. A line the comment pattern rejects leaves both groups
      unset, so it yields a feature with every field falsy. */
  function CommentFeature(s: string): (f: Feature)
    ensures !f.call && f.assign == "" && f.property == ""
    ensures f.args == [] && f.kwargs == [] && f.result == Null
    ensures MatchComment(s).Some? ==> f.comment == MatchComment(s).value.text
    ensures MatchComment(s).None? ==> f.comment == "" && !f.skip
    ensures f.skip <==> MatchComment(s).Some? && MatchComment(s).value.bracketed
                        && TruthyStr(MatchComment(s).value.filter)
                        && "php" !in FilterNames(MatchComment(s).value.filter)
  {
    match MatchComment(s)
    case Some(p) => Feature(p.text, FilterSkip(p.filter), false, "", "", [], [], Null)
    case None => Feature("", false, false, "", "", [], [], Null)
  }

  /** A string the pattern accepts counts as a comment, except a text of
      exactly "0", which PHP reads as false. */
  lemma CommentIsComment(s: string)
    requires MatchComment(s).Some? && MatchComment(s).value.text != "0"
    ensures IsComment(CommentFeature(s))
  {
    MatchCommentSound(s);
  }

  // ---------------------------------------------------------------------
  // Right side (src/cli.php:140-163)

  /** Where one right-side item goes when the feature is a call. */
  datatype ItemKind = Expected(value: Value) | Keyword(name: string, value: Value) | Positional(value: Value)

  /** A one-entry array keyed "==" gives the expected result, one keyed
      `name=` gives the keyword argument `name`, and every other item is
      positional and passed on unchanged. */
  function KindOf(item: Value): (k: ItemKind)
    ensures k.Expected? <==> item.Arr? && |item.entries| == 1 && item.entries[0].0 == "=="
    ensures k.Keyword? <==> item.Arr? && |item.entries| == 1
                            && item.entries[0].0 != "==" && EndsWith(item.entries[0].0, "=")
    ensures !k.Positional? ==> k.value == item.entries[0].1
    ensures k.Keyword? ==> k.name + "=" == item.entries[0].0
    ensures k.Positional? ==> k.value == item
  {
    if item.Arr? && |item.entries| == 1 then
      var k := item.entries[0].0;
      var v := item.entries[0].1;
      if k == "==" then Expected(v)
      else if EndsWith(k, "=") then Keyword(k[..|k| - 1], v)
      else Positional(item)
    else Positional(item)
  }

  datatype RightSide = RightSide(args: seq<Value>, kwargs: seq<(string, Value)>, result: Value)

  /** The loop of lines 146-162 over the first `|items|` items. */
  function Classify(items: seq<Value>): RightSide
    decreases |items|
  {
    if items == [] then RightSide([], [], Null)
    else
      var r := Classify(items[..|items| - 1]);
      match KindOf(items[|items| - 1])
      case Expected(v) => r.(result := v)
      case Keyword(n, v) => r.(kwargs := Put(r.kwargs, n, v))
      case Positional(v) => r.(args := r.args + [v])
  }

  /** `foreach ($right as $item)`: the values of an array; PHP skips the loop
      for anything else. */
  function ItemsOf(right: Value): seq<Value> {
    if right.Arr? then ValuesOf(right.entries) else []
  }

  method ClassifyItems(items: seq<Value>) returns (args: seq<Value>, kwargs: seq<(string, Value)>, result: Value)
    ensures RightSide(args, kwargs, result) == Classify(items)
  {
    args, kwargs, result := [], [], Null;
    var i := 0;
    while i < |items|
      invariant 0 <= i <= |items|
      invariant RightSide(args, kwargs, result) == Classify(items[..i])
    {
      var item := items[i];
      ClassifyNext(items, i);
      if item.Arr? && |item.entries| == 1 {
        var (left, right) := item.entries[0];
        if left == "==" {
          result := right;
          i := i + 1;
          continue;
        }
        if EndsWith(left, "=") {
          kwargs := Put(kwargs, left[..|left| - 1], right);
          i := i + 1;
          continue;
        }
      }
      args := args + [item];
      i := i + 1;
    }
    assert items[..|items|] == items;
  }

  /** One more item goes where its kind says. */
  lemma ClassifyNext(items: seq<Value>, i: nat)
    requires i < |items|
    ensures var r := Classify(items[..i]);
      Classify(items[..i + 1]) == match KindOf(items[i])
        case Expected(v) => r.(result := v)
        case Keyword(n, v) => r.(kwargs := Put(r.kwargs, n, v))
        case Positional(v) => r.(args := r.args + [v])
  {
    assert items[..i + 1][..i] == items[..i];
  }

  // Reference definitions, one per destination

  /** The positional items, in their original order. */
  function Positionals(items: seq<Value>): seq<Value> {
    if items == [] then []
    else if KindOf(items[0]).Positional? then [items[0]] + Positionals(items[1..])
    else Positionals(items[1..])
  }

  /** The value of the last `name=` item, if any. */
  function LastKeyword(items: seq<Value>, name: string): Option<Value> {
    if items == [] then None
    else
      var k := KindOf(items[|items| - 1]);
      if k.Keyword? && k.name == name then Some(k.value) else LastKeyword(items[..|items| - 1], name)
  }

  /** The value of the last `==` item, or null. */
  function LastExpected(items: seq<Value>): Value {
    if items == [] then Null
    else
      var k := KindOf(items[|items| - 1]);
      if k.Expected? then k.value else LastExpected(items[..|items| - 1])
  }

  lemma {:induction false} PositionalsSnoc(items: seq<Value>, x: Value)
    ensures Positionals(items + [x]) == Positionals(items) + (if KindOf(x).Positional? then [x] else [])
  {
    if items != [] {
      assert (items + [x])[1..] == items[1..] + [x];
      PositionalsSnoc(items[1..], x);
    } else {
      assert [x][1..] == [];
    }
  }

  /**
   * Every right-side item of a call lands in exactly one place: positional
   * items become `args` in their order, the last `name=` item of each name
   * becomes that keyword argument (and only such names are keywords), and the
   * last `==` item becomes the expected result.
   */
  lemma {:induction false} ClassifyPlacesItems(items: seq<Value>)
    ensures Classify(items).args == Positionals(items)
    ensures Classify(items).result == LastExpected(items)
    ensures forall n :: Lookup(Classify(items).kwargs, n) == LastKeyword(items, n)
    decreases |items|
  {
    if items != [] {
      var init := items[..|items| - 1];
      var x := items[|items| - 1];
      ClassifyPlacesItems(init);
      assert items == init + [x];
      PositionalsSnoc(init, x);
      ClassifyLast(init, x);
      forall n ensures Lookup(Classify(items).kwargs, n) == LastKeyword(items, n) {
        ClassifyLastKeyword(init, x, n);
      }
    }
  }

  /** The step of `ClassifyPlacesItems` for the last item `x`: positionals
      and the expected value. */
  lemma ClassifyLast(init: seq<Value>, x: Value)
    requires Classify(init).args == Positionals(init)
    requires Classify(init).result == LastExpected(init)
    requires Positionals(init + [x]) == Positionals(init) + (if KindOf(x).Positional? then [x] else [])
    ensures Classify(init + [x]).args == Positionals(init + [x])
    ensures Classify(init + [x]).result == LastExpected(init + [x])
  {
    var items := init + [x];
    assert items[..|items| - 1] == init && items[|items| - 1] == x;
  }

  /** The step of `ClassifyPlacesItems` for the last item `x`: the keyword
      argument `n`. */
  lemma ClassifyLastKeyword(init: seq<Value>, x: Value, n: string)
    requires Lookup(Classify(init).kwargs, n) == LastKeyword(init, n)
    ensures Lookup(Classify(init + [x]).kwargs, n) == LastKeyword(init + [x], n)
  {
    var items := init + [x];
    assert items[..|items| - 1] == init && items[|items| - 1] == x;
    var r := Classify(init);
    match KindOf(x)
    case Keyword(m, v) =>
      if m == n { PutFinds(r.kwargs, m, v); } else { PutKeepsOthers(r.kwargs, m, v, n); }
    case Expected(v) =>
    case Positional(v) =>
  }

  // ---------------------------------------------------------------------
  // Left side and the whole mapping node (src/cli.php:114-138)

  /** A mapping node whose (camelised) left side matched the pattern with
      groups `p`, and whose right side is `right`. */
  function FeatureOfLeft(p: LeftParts, right: Value): (r: Result<Feature>)
    ensures r.Err? <==> !TruthyStr(p.assign) && !TruthyStr(p.property)
    ensures r.Err? ==> r.error == Malformed
    ensures r.Ok? ==> var f := r.value;
      && f.comment == "" && f.assign == p.assign && f.skip == FilterSkip(p.filter)
      && (f.call <==> TruthyStr(p.property) && !EndsWith(p.property, "=="))
      && p.property == (if TruthyStr(p.property) && !f.call then f.property + "==" else f.property)
      && (f.call ==> TruthyStr(f.property))
      && (!f.call ==> f.args == [] && f.kwargs == [] && f.result == right)
  {
    if !TruthyStr(p.assign) && !TruthyStr(p.property) then Err(Malformed)
    else
      var stripped := TruthyStr(p.property) && EndsWith(p.property, "==");
      var property := if stripped then p.property[..|p.property| - 2] else p.property;
      assert stripped ==> p.property == property + "==";
      var call := TruthyStr(p.property) && !stripped;
      var rs := if call then Classify(ItemsOf(right)) else RightSide([], [], right);
      Ok(Feature("", FilterSkip(p.filter), call, p.assign, property, rs.args, rs.kwargs, rs.result))
  }

  /** The first key as `array_slice($feature, 0, 1)` hands it on: an
      integer key is renumbered to 0. */
  function SlicedKey(key: string): (k: string)
    ensures IntegerKey(key) ==> k == "0"
    ensures !IntegerKey(key) ==> k == key
  {
    if IntegerKey(key) then "0" else key
  }

  /** `parse_feature` on one node: a string is a comment line, an array is a
      mapping whose first entry is read, anything else is a type fault. An
      empty mapping and one whose first key is an integer are malformed. */
  function FeatureOf(node: Value): (r: Result<Feature>)
    ensures node.Str? ==> r == Ok(CommentFeature(node.s))
    ensures !node.Str? && !node.Arr? ==> r == Err(TypeFault)
    ensures node.Arr? && |node.entries| == 0 ==> r == Err(Malformed)
    ensures node.Arr? && |node.entries| > 0 && IntegerKey(node.entries[0].0) ==> r == Err(Malformed)
  {
    match node
    case Str(s) => Ok(CommentFeature(s))
    case Arr(e) =>
      // the first entry; an empty array leaves both sides null
      var key := if |e| == 0 then "" else SlicedKey(e[0].0);
      var right := if |e| == 0 then Null else e[0].1;
      MatchLeftFalsy("");
      MatchLeftFalsy("0");
      (match MatchLeft(Camelize(key))
       case Some(p) => FeatureOfLeft(p, right)
       case None => Err(Malformed))
    case _ => Err(TypeFault)
  }

  /** A left side that is "" or "0" names neither a target nor a property. */
  lemma MatchLeftFalsy(s: string)
    requires !TruthyStr(s)
    ensures MatchLeft(s).Some? ==>
      !TruthyStr(MatchLeft(s).value.assign) && !TruthyStr(MatchLeft(s).value.property)
  {
    if MatchLeft(s).Some? {
      var p := MatchLeft(s).value;
      MatchLeftSound(s);
      assert s == "" || s == "0";
    }
  }

  /** A call's arguments and expected result come from its right side as
      `ClassifyPlacesItems` describes. */
  lemma CallFeatureRightSide(key: string, right: Value, rest: seq<(string, Value)>)
    requires FeatureOf(Arr([(key, right)] + rest)).Ok?
    requires FeatureOf(Arr([(key, right)] + rest)).value.call
    ensures var f := FeatureOf(Arr([(key, right)] + rest)).value;
      && f.args == Positionals(ItemsOf(right))
      && f.result == LastExpected(ItemsOf(right))
      && forall n :: Lookup(f.kwargs, n) == LastKeyword(ItemsOf(right), n)
  {
    ClassifyPlacesItems(ItemsOf(right));
  }

  /** A mapping node is rejected exactly when its left side yields neither an
      assignment target nor a property. */
  lemma MappingRejected(key: string, right: Value, rest: seq<(string, Value)>)
    ensures var left := Camelize(SlicedKey(key));
      FeatureOf(Arr([(key, right)] + rest)).Err? <==>
        (MatchLeft(left).None?
         || (!TruthyStr(MatchLeft(left).value.assign) && !TruthyStr(MatchLeft(left).value.property)))
    ensures FeatureOf(Arr([(key, right)] + rest)).Err? ==>
      FeatureOf(Arr([(key, right)] + rest)).error == Malformed
  {
    assert ([(key, right)] + rest)[0] == (key, right);
  }

  /** Only strings and arrays are feature nodes. */
  lemma ScalarNodeFaults(node: Value)
    requires !node.Str? && !node.Arr?
    ensures FeatureOf(node) == Err(TypeFault)
  {
  }

  /** The statement of `parse_feature`, with the right-side loop kept. */
  method ParseFeature(node: Value) returns (r: Result<Feature>)
    ensures r == FeatureOf(node)
  {
    match node {
      case Str(s) =>
        r := Ok(CommentFeature(s));
      case Arr(e) =>
        var key := if |e| == 0 then "" else SlicedKey(e[0].0);
        var right := if |e| == 0 then Null else e[0].1;
        var left := Camelize(key);
        var m := MatchLeft(left);
        if m.None? {
          return Err(Malformed);
        }
        var p := m.value;
        if !TruthyStr(p.assign) && !TruthyStr(p.property) {
          return Err(Malformed);
        }
        var call := false;
        var property := p.property;
        if TruthyStr(property) {
          call := true;
          if EndsWith(property, "==") {
            property := property[..|property| - 2];
            call := false;
          }
        }
        var args, kwargs, result := [], [], right;
        if call {
          args, kwargs, result := ClassifyItems(ItemsOf(right));
        }
        r := Ok(Feature("", FilterSkip(p.filter), call, p.assign, property, args, kwargs, result));
      case _ =>
        r := Err(TypeFault);
    }
  }
}
