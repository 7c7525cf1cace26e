/**
 * Spec assembly (`parse_spec`, src/cli.php:40-99): the `{token}` rewrite of
 * the raw text, the package check on the first node, the loop that carries a
 * comment's skip onto the features after it, and the statistics.
 *
 * Between the rewrite and the rest stands the YAML parser, which is not part
 * of this model: `ParseSpec` takes the first document already parsed into
 * its list of nodes.
 */
module Specs {
  import opened Values
  import opened Syntax
  import opened Features

  // ---------------------------------------------------------------------
  // The `{token}` rewrite (src/cli.php:44-45)

  /** `[\w$]`, the characters of a set-literal token. */
  predicate IsTokenChar(c: char) {
    IsWordChar(c) || c == '$'
  }

  /** The longest prefix of token characters. */
  function LeadRun(t: string): (r: string)
    ensures |r| <= |t| && t[..|r|] == r
    ensures forall i | 0 <= i < |r| :: IsTokenChar(r[i])
    ensures |r| < |t| ==> !IsTokenChar(t[|r|])
  {
    if t != "" && IsTokenChar(t[0]) then
      var r := [t[0]] + LeadRun(t[1..]);
      assert t[..|r|] == [t[0]] + t[1..][..|r| - 1];
      r
    else ""
  }

  /** The character right after the leading run, if there is one. */
  function After(t: string): Option<char> {
    var n := |LeadRun(t)|;
    if n < |t| then Some(t[n]) else None
  }

  /** `s` starts with a match of `{([\w$]+)}`. */
  predicate SetLiteralAt(s: string) {
    |s| > 0 && s[0] == '{' && LeadRun(s[1..]) != "" && After(s[1..]) == Some('}')
  }

  predicate NoSetLiteral(s: string) {
    forall i | 0 <= i < |s| :: !SetLiteralAt(s[i..])
  }

  /** `preg_replace('/{([\w$]+)}/', '{$1: null}', $s)`: left to right, each
      set literal becomes a mapping of its token to null. */
  function RewriteSets(s: string): string
    decreases |s|
  {
    if s == "" then ""
    else if SetLiteralAt(s) then
      var tok := LeadRun(s[1..]);
      "{" + tok + ": null}" + RewriteSets(s[|tok| + 2..])
    else [s[0]] + RewriteSets(s[1..])
  }

  lemma {:induction false} LeadRunOfRun(run: string, x: string)
    requires forall i | 0 <= i < |run| :: IsTokenChar(run[i])
    requires x != "" && !IsTokenChar(x[0])
    ensures LeadRun(run + x) == run
    decreases |run|
  {
    if run != "" {
      assert (run + x)[1..] == run[1..] + x;
      LeadRunOfRun(run[1..], x);
      assert run == [run[0]] + run[1..];
    } else {
      assert run + x == x;
    }
  }

  lemma LeadRunCons(c: char, u: string)
    requires IsTokenChar(c)
    ensures LeadRun([c] + u) == [c] + LeadRun(u)
    ensures After([c] + u) == After(u)
  {
    assert ([c] + u)[1..] == u;
  }

  /** The rewrite keeps the leading token run of its input and the character
      after it. */
  lemma {:induction false} RewriteKeepsHead(t: string)
    ensures LeadRun(RewriteSets(t)) == LeadRun(t)
    ensures After(RewriteSets(t)) == After(t)
    decreases |t|
  {
    if t != "" && !SetLiteralAt(t) {
      RewriteKeepsHead(t[1..]);
      if IsTokenChar(t[0]) {
        LeadRunCons(t[0], RewriteSets(t[1..]));
        LeadRunCons(t[0], t[1..]);
        assert t == [t[0]] + t[1..];
      }
    }
  }

  lemma SuffixOfConcat(a: string, b: string, i: int)
    requires |a| <= i <= |a + b|
    ensures (a + b)[i..] == b[i - |a|..]
  {
  }

  /** The rewrite leaves no set literal behind. */
  lemma {:induction false} RewriteLeavesNoSet(s: string)
    ensures NoSetLiteral(RewriteSets(s))
    decreases |s|
  {
    if s == "" {
    } else if SetLiteralAt(s) {
      var tok := LeadRun(s[1..]);
      RewriteLeavesNoSet(s[|tok| + 2..]);
      MappingNoSet(tok, RewriteSets(s[|tok| + 2..]));
    } else {
      RewriteLeavesNoSet(s[1..]);
      RewriteKeepsHead(s[1..]);
      var rest := RewriteSets(s[1..]);
      assert ([s[0]] + rest)[1..] == rest;
      ConsNoSet(s[0], rest);
    }
  }

  /** A rewritten literal `{tok: null}` holds no set literal, and none starts
      inside it. */
  lemma MappingNoSet(tok: string, rest: string)
    requires tok != "" && forall i | 0 <= i < |tok| :: IsTokenChar(tok[i])
    requires NoSetLiteral(rest)
    ensures NoSetLiteral("{" + tok + ": null}" + rest)
  {
    var chunk := "{" + tok + ": null}";
    var r := chunk + rest;
    forall i | 0 <= i < |r| ensures !SetLiteralAt(r[i..]) {
      if i == 0 {
        assert r[1..] == tok + (": null}" + rest);
        LeadRunOfRun(tok, ": null}" + rest);
        assert After(r[1..]) == Some(':');
      } else if i < |chunk| {
        assert r[i..][0] == chunk[i];
        assert chunk[i] != '{' by {
          if i <= |tok| { assert chunk[i] == tok[i - 1]; }
        }
      } else {
        SuffixOfConcat(chunk, rest, i);
      }
    }
  }

  /** One character in front of text without set literals adds none unless
      it starts one. */
  lemma ConsNoSet(c: char, rest: string)
    requires NoSetLiteral(rest) && !SetLiteralAt([c] + rest)
    ensures NoSetLiteral([c] + rest)
  {
    var r := [c] + rest;
    forall i | 0 < i < |r| ensures !SetLiteralAt(r[i..]) {
      SuffixOfConcat([c], rest, i);
    }
  }

  /** Text without set literals passes through unchanged. */
  lemma {:induction false} RewriteKeepsPlain(s: string)
    requires NoSetLiteral(s)
    ensures RewriteSets(s) == s
    decreases |s|
  {
    if s != "" {
      assert s[0..] == s;
      assert NoSetLiteral(s[1..]) by {
        forall i | 0 <= i < |s[1..]| ensures !SetLiteralAt(s[1..][i..]) {
          assert s[1..][i..] == s[i + 1..];
        }
      }
      RewriteKeepsPlain(s[1..]);
    }
  }

  /** Rewriting twice is rewriting once. */
  lemma RewriteIdempotent(s: string)
    ensures RewriteSets(RewriteSets(s)) == RewriteSets(s)
  {
    RewriteLeavesNoSet(s);
    RewriteKeepsPlain(RewriteSets(s));
  }

  // ---------------------------------------------------------------------
  // Skip carried from comments (src/cli.php:57-66)

  /** The `$skip` variable after the loop has seen `fs`: the skip of the most
      recent comment, false before the first one. */
  function CarryState(fs: seq<Feature>): bool {
    if fs == [] then false
    else if IsComment(fs[|fs| - 1]) then fs[|fs| - 1].skip
    else CarryState(fs[..|fs| - 1])
  }

  /** The features as the loop leaves them. */
  function CarrySkip(fs: seq<Feature>): (r: seq<Feature>)
    ensures |r| == |fs|
  {
    if fs == [] then []
    else
      var last := fs[|fs| - 1];
      CarrySkip(fs[..|fs| - 1]) + [last.(skip := CarryState(fs) || last.skip)]
  }

  /** Some comment at or before `i` skips, and no comment comes after it up
      to `i`. */
  ghost predicate SkippedByComment(fs: seq<Feature>, i: int)
    requires 0 <= i < |fs|
  {
    exists j :: 0 <= j <= i && IsComment(fs[j]) && fs[j].skip
      && forall k :: j < k <= i ==> !IsComment(fs[k])
  }

  lemma {:induction false} CarryStateMeans(fs: seq<Feature>)
    requires fs != []
    ensures CarryState(fs) <==> SkippedByComment(fs, |fs| - 1)
    decreases |fs|
  {
    var n := |fs| - 1;
    if IsComment(fs[n]) {
      if SkippedByComment(fs, n) {
        var j :| 0 <= j <= n && IsComment(fs[j]) && fs[j].skip
          && forall k :: j < k <= n ==> !IsComment(fs[k]);
        assert j == n;
      }
    } else if n == 0 {
    } else {
      var init := fs[..n];
      CarryStateMeans(init);
      if SkippedByComment(init, n - 1) {
        var j :| 0 <= j <= n - 1 && IsComment(init[j]) && init[j].skip
          && forall k :: j < k <= n - 1 ==> !IsComment(init[k]);
        assert fs[j] == init[j];
        assert forall k :: j < k <= n ==> !IsComment(fs[k]) by {
          forall k | j < k <= n ensures !IsComment(fs[k]) {
            if k < n { assert fs[k] == init[k]; }
          }
        }
      }
      if SkippedByComment(fs, n) {
        var j :| 0 <= j <= n && IsComment(fs[j]) && fs[j].skip
          && forall k :: j < k <= n ==> !IsComment(fs[k]);
        assert j < n;
        assert init[j] == fs[j];
        assert forall k :: j < k <= n - 1 ==> !IsComment(init[k]) by {
          forall k | j < k <= n - 1 ensures !IsComment(init[k]) {
            assert init[k] == fs[k];
          }
        }
      }
    }
  }

  /**
   * After the loop, each feature is unchanged except for `skip`, which is its
   * own filter skip or the skip of the most recent comment at or before it
   * (a comment without a skipping filter resets it).
   */
  lemma {:induction false} CarrySkipMeans(fs: seq<Feature>, i: int)
    requires 0 <= i < |fs|
    ensures CarrySkip(fs)[i] == fs[i].(skip := fs[i].skip || SkippedByComment(fs, i))
    decreases |fs|
  {
    var n := |fs| - 1;
    if i == n {
      CarryStateMeans(fs);
    } else {
      CarrySkipMeans(fs[..n], i);
      assert CarrySkip(fs)[i] == CarrySkip(fs[..n])[i];
      assert fs[..n][i] == fs[i];
      assert SkippedByComment(fs[..n], i) <==> SkippedByComment(fs, i) by {
        if SkippedByComment(fs, i) {
          var j :| 0 <= j <= i && IsComment(fs[j]) && fs[j].skip
            && forall k :: j < k <= i ==> !IsComment(fs[k]);
          assert fs[..n][j] == fs[j];
          assert forall k :: j < k <= i ==> !IsComment(fs[..n][k]) by {
            forall k | j < k <= i ensures !IsComment(fs[..n][k]) {
              assert fs[..n][k] == fs[k];
            }
          }
        }
        if SkippedByComment(fs[..n], i) {
          var j :| 0 <= j <= i && IsComment(fs[..n][j]) && fs[..n][j].skip
            && forall k :: j < k <= i ==> !IsComment(fs[..n][k]);
          assert fs[..n][j] == fs[j];
          assert forall k :: j < k <= i ==> !IsComment(fs[k]) by {
            forall k | j < k <= i ensures !IsComment(fs[k]) {
              assert fs[..n][k] == fs[k];
            }
          }
        }
      }
    }
  }

  // ---------------------------------------------------------------------
  // Statistics (src/cli.php:78-90)

  datatype Stats = Stats(features: nat, comments: nat, skipped: nat, tests: nat)

  /** The counters after the loop over `fs`. */
  function Count(fs: seq<Feature>): (s: Stats)
    ensures s.features == |fs| == s.comments + s.tests
    ensures s.skipped <= s.tests
  {
    if fs == [] then Stats(0, 0, 0, 0)
    else
      var s := Count(fs[..|fs| - 1]);
      var f := fs[|fs| - 1];
      if IsComment(f) then s.(features := s.features + 1, comments := s.comments + 1)
      else s.(features := s.features + 1, tests := s.tests + 1,
              skipped := if f.skip then s.skipped + 1 else s.skipped)
  }

  // ---------------------------------------------------------------------
  // The whole document

  /** The handle of the `$import` closure every scope starts with. */
  const ImportClosure: Value := Closure(0)

  /** The scope a spec starts with (src/cli.php:69-70). */
  const InitialScope: seq<(string, Value)> := [("$import", ImportClosure)]

  datatype Spec = Spec(package: string, features: seq<Feature>, scope: seq<(string, Value)>, stats: Stats)

  /** What loading one document gives: no spec (its first node is malformed
      or filtered out for PHP), a spec, or a fault that escapes `parse_spec`
      and ends the run. */
  datatype Loaded = NotASpec | Loaded(spec: Spec) | LoadFault(error: ParseError)

  /** Every node parsed in order, or the first failure. */
  function ParseAll(doc: seq<Value>): (r: Features.Result<seq<Feature>>)
    ensures r.Ok? ==> |r.value| == |doc|
  {
    if doc == [] then Ok([])
    else
      var init := doc[..|doc| - 1];
      assert forall i | 0 <= i < |init| :: init[i] == doc[i];
      match ParseAll(init)
      case Err(e) => Err(e)
      case Ok(fs) =>
        match FeatureOf(doc[|doc| - 1])
        case Err(e) => Err(e)
        case Ok(f) => Ok(fs + [f])
  }

  /** A document that fails to parse fails with the error of one of its
      nodes. */
  lemma {:induction false} ParseAllErrFrom(doc: seq<Value>)
    requires ParseAll(doc).Err?
    ensures exists i | 0 <= i < |doc| :: FeatureOf(doc[i]) == Err(ParseAll(doc).error)
  {
    var init := doc[..|doc| - 1];
    if ParseAll(init).Err? {
      ParseAllErrFrom(init);
      var i :| 0 <= i < |init| && FeatureOf(init[i]) == Err(ParseAll(init).error);
      assert init[i] == doc[i];
    } else {
      assert FeatureOf(doc[|doc| - 1]) == Err(ParseAll(doc).error);
    }
  }

  /** `parse_spec` on an already-parsed first document. `$document1[0]` of an
      empty document is null, which is not a feature node. */
  function SpecOf(doc: seq<Value>): (r: Loaded)
    ensures |doc| == 0 ==> r == LoadFault(TypeFault)
    ensures r.NotASpec? ==> |doc| > 0 && (FeatureOf(doc[0]) == Err(Malformed) || (FeatureOf(doc[0]).Ok? && FeatureOf(doc[0]).value.skip))
    ensures r.Loaded? ==> |doc| > 0 && FeatureOf(doc[0]).Ok? && r.spec.package == FeatureOf(doc[0]).value.comment
    ensures r.Loaded? ==> r.spec.scope == InitialScope && ParseAll(doc).Ok?
  {
    match FeatureOf(if |doc| == 0 then Null else doc[0])
    case Err(TypeFault) => LoadFault(TypeFault)
    case Err(Malformed) => NotASpec
    case Ok(first) =>
      if first.skip then NotASpec
      else match ParseAll(doc)
        case Err(e) => LoadFault(e)
        case Ok(fs) => Loaded(Spec(first.comment, CarrySkip(fs), InitialScope, Count(CarrySkip(fs))))
  }

  /** A document that parses yields one feature per node, each the parse of
      its node. */
  lemma {:induction false} ParseAllOk(doc: seq<Value>)
    requires ParseAll(doc).Ok?
    ensures |ParseAll(doc).value| == |doc|
    ensures forall i | 0 <= i < |doc| :: FeatureOf(doc[i]) == Ok(ParseAll(doc).value[i])
    decreases |doc|
  {
    if doc != [] {
      var init := doc[..|doc| - 1];
      ParseAllOk(init);
      forall i | 0 <= i < |doc| ensures FeatureOf(doc[i]) == Ok(ParseAll(doc).value[i]) {
        if i < |doc| - 1 { assert doc[i] == init[i]; }
      }
    }
  }

  /** A loaded spec keeps one feature per node, its first node is not
      skipped, and its counters add up. */
  lemma LoadedSpecShape(doc: seq<Value>)
    requires SpecOf(doc).Loaded?
    ensures var spec := SpecOf(doc).spec;
      && |doc| > 0 && |spec.features| == |doc|
      && !spec.features[0].skip
      && spec.stats.features == spec.stats.comments + spec.stats.tests
      && spec.stats.skipped <= spec.stats.tests
  {
    var fs := ParseAll(doc).value;
    ParseAllOk(doc);
    var first := FeatureOf(doc[0]).value;
    assert fs[0] == first;
    CarrySkipMeans(fs, 0);
  }

  /** The statement of `parse_spec`: the first node decides whether the
      document is a spec, then the two loops. */
  method ParseSpec(doc: seq<Value>) returns (r: Loaded)
    ensures r == SpecOf(doc)
  {
    var first := ParseFeature(if |doc| == 0 then Null else doc[0]);
    if first.Err? {
      return if first.error == TypeFault then LoadFault(TypeFault) else NotASpec;
    }
    if first.value.skip {
      return NotASpec;
    }
    var features := ParseFeatures(doc);
    if features.Err? {
      return LoadFault(features.error);
    }
    var stats := CountStats(features.value);
    r := Loaded(Spec(first.value.comment, features.value, InitialScope, stats));
  }

  /** Lines 56-66: every node parsed in order, each feature carrying the
      skip of the most recent comment; the first failure escapes. */
  method ParseFeatures(doc: seq<Value>) returns (r: Features.Result<seq<Feature>>)
    ensures ParseAll(doc).Err? ==> r == Err(ParseAll(doc).error)
    ensures ParseAll(doc).Ok? ==> r == Ok(CarrySkip(ParseAll(doc).value))
  {
    var skip := false;
    var features: seq<Feature> := [];
    ghost var raw: seq<Feature> := [];
    var i := 0;
    while i < |doc|
      invariant 0 <= i <= |doc|
      invariant ParseAll(doc[..i]) == Ok(raw)
      invariant features == CarrySkip(raw) && skip == CarryState(raw)
    {
      ParseAllNext(doc, i, raw);
      var feature := ParseFeature(doc[i]);
      if feature.Err? {
        ParseAllPrefixError(doc, i + 1);
        return Err(feature.error);
      }
      var f := feature.value;
      assert (raw + [f])[..|raw|] == raw;
      raw := raw + [f];
      if IsComment(f) {
        skip := f.skip;
      }
      features := features + [f.(skip := skip || f.skip)];
      i := i + 1;
    }
    assert doc[..|doc|] == doc;
    r := Ok(features);
  }

  /** One more node: its parse is appended, or its failure ends the parse. */
  lemma ParseAllNext(doc: seq<Value>, i: nat, raw: seq<Feature>)
    requires i < |doc| && ParseAll(doc[..i]) == Ok(raw)
    ensures FeatureOf(doc[i]).Err? ==> ParseAll(doc[..i + 1]) == Err(FeatureOf(doc[i]).error)
    ensures FeatureOf(doc[i]).Ok? ==> ParseAll(doc[..i + 1]) == Ok(raw + [FeatureOf(doc[i]).value])
  {
    assert doc[..i + 1][..i] == doc[..i];
  }

  /** Lines 78-90: the counters, one feature at a time. */
  method CountStats(fs: seq<Feature>) returns (stats: Stats)
    ensures stats == Count(fs)
  {
    stats := Stats(0, 0, 0, 0);
    var j := 0;
    while j < |fs|
      invariant 0 <= j <= |fs|
      invariant stats == Count(fs[..j])
    {
      assert fs[..j + 1][..j] == fs[..j];
      stats := stats.(features := stats.features + 1);
      if IsComment(fs[j]) {
        stats := stats.(comments := stats.comments + 1);
      } else {
        stats := stats.(tests := stats.tests + 1);
        if fs[j].skip {
          stats := stats.(skipped := stats.skipped + 1);
        }
      }
      j := j + 1;
    }
    assert fs[..|fs|] == fs;
  }

  /** Once a prefix fails to parse, so does the whole document, with the same
      error. */
  lemma {:induction false} ParseAllPrefixError(doc: seq<Value>, n: int)
    requires 0 <= n <= |doc| && ParseAll(doc[..n]).Err?
    ensures ParseAll(doc) == ParseAll(doc[..n])
    decreases |doc| - n
  {
    if n == |doc| {
      assert doc[..n] == doc;
    } else {
      var d := doc[..n + 1];
      assert d[..|d| - 1] == doc[..n];
      ParseAllErrStep(d);
      ParseAllPrefixError(doc, n + 1);
    }
  }

  /** A failing document stays failed when one more node is appended. */
  lemma ParseAllErrStep(d: seq<Value>)
    requires |d| > 0 && ParseAll(d[..|d| - 1]).Err?
    ensures ParseAll(d) == ParseAll(d[..|d| - 1])
  {
  }
}
