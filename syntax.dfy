/**
 * The surface syntax of feature lines: identifier camelisation, the two
 * regular expressions that split a comment line and the left side of a
 * feature, and the target filter that decides `skip`.
 *
 * The regular expressions are PCRE patterns without modifiers, so `.` does
 * not match a newline and `$` matches at the very end or just before a final
 * newline. The matchers below follow PCRE's search order: an optional group
 * is tried present before absent, and a greedy `.*` is tried longest first.
 */
module Syntax {
  import opened Values

  // ---------------------------------------------------------------------
  // camelize (src/cli.php:477-482)

  /** `strpos($s, '_')` is truthy: there is an underscore and the first one is
      not at position 0. */
  predicate CamelizeApplies(s: string) {
    '_' in s && s[0] != '_'
  }

  /** PHP's `ucwords($s, '_')`: upper-case the first character (when
      `atWordStart`) and every character that follows an underscore; every
      other character is kept. */
  function UcWords(s: string, atWordStart: bool): (r: string)
    ensures |r| == |s|
    ensures forall i | 0 <= i < |s| :: (r[i] == '_' <==> s[i] == '_')
    ensures forall i | 0 <= i < |s| ::
      r[i] == if (i == 0 && atWordStart) || (i > 0 && s[i - 1] == '_') then UpperChar(s[i]) else s[i]
  {
    if s == "" then ""
    else [if atWordStart then UpperChar(s[0]) else s[0]] + UcWords(s[1..], s[0] == '_')
  }

  /** PHP's `str_replace('_', '', $s)`: every character but the underscores,
      each as often as in `s`. */
  function DropUnderscores(s: string): (r: string)
    ensures '_' !in r
    ensures |r| == |s| - multiset(s)['_']
  {
    if s == "" then ""
    else
      assert s == [s[0]] + s[1..];
      if s[0] == '_' then DropUnderscores(s[1..])
      else [s[0]] + DropUnderscores(s[1..])
  }

  /** Dropping underscores keeps the order of what is left: it works piece
      by piece. */
  lemma {:induction false} DropUnderscoresConcat(a: string, b: string)
    ensures DropUnderscores(a + b) == DropUnderscores(a) + DropUnderscores(b)
  {
    if a != "" {
      var head := if a[0] == '_' then "" else [a[0]];
      assert (a + b)[0] == a[0] && (a + b)[1..] == a[1..] + b;
      assert DropUnderscores(a + b) == head + DropUnderscores(a[1..] + b);
      assert DropUnderscores(a) == head + DropUnderscores(a[1..]);
      DropUnderscoresConcat(a[1..], b);
    } else {
      assert a + b == b;
    }
  }

  /** PHP's `lcfirst`: only the first character may change, and an
      upper-case letter there becomes lower-case. */
  function LcFirst(s: string): (r: string)
    ensures |r| == |s|
    ensures |s| > 0 ==> !('A' <= r[0] <= 'Z') && ('A' <= s[0] <= 'Z' || r[0] == s[0])
    ensures forall i | 1 <= i < |s| :: r[i] == s[i]
  {
    if s == "" then "" else [LowerChar(s[0])] + s[1..]
  }

  /** `camelize`: snake_case identifiers become lowerCamelCase. */
  function Camelize(s: string): (r: string)
    ensures !CamelizeApplies(s) ==> r == s
    ensures CamelizeApplies(s) ==> '_' !in r && |r| == |s| - multiset(s)['_']
    ensures CamelizeApplies(s) ==> |r| > 0 && r[0] == LowerChar(UpperChar(s[0]))
  {
    if CamelizeApplies(s) then
      var u := UcWords(s, true);
      assert u[0] == UpperChar(s[0]) != '_';
      assert '_' in u by {
        var i :| 0 <= i < |s| && s[i] == '_';
        assert u[i] == '_';
      }
      assert multiset(u)['_'] == multiset(s)['_'] by {
        UnderscoresKept(s, u);
      }
      LcFirstKeepsUnderscoreFree(DropUnderscores(u));
      LcFirst(DropUnderscores(u))
    else s
  }

  /** Two strings with underscores in the same places have as many. */
  lemma {:induction false} UnderscoresKept(s: string, u: string)
    requires |u| == |s| && forall i | 0 <= i < |s| :: (u[i] == '_' <==> s[i] == '_')
    ensures multiset(u)['_'] == multiset(s)['_']
  {
    if s != "" {
      UnderscoresKept(s[1..], u[1..]);
      assert s == [s[0]] + s[1..];
      assert u == [u[0]] + u[1..];
    }
  }

  /** Two words joined by an underscore: the underscore goes, the second
      word starts upper-case and the first starts lower-case. */
  lemma CamelizeTwoWords(a: string, b: string)
    requires a != "" && b != "" && '_' !in a && '_' !in b
    ensures Camelize(a + "_" + b) == [LowerChar(UpperChar(a[0]))] + a[1..] + [UpperChar(b[0])] + b[1..]
  {
    var s := a + "_" + b;
    assert s[0] == a[0] && s[|a|] == '_';
    var a' := [UpperChar(a[0])] + a[1..];
    var b' := [UpperChar(b[0])] + b[1..];
    UcWordsTwoWords(a, b);
    RaisedWordFree(a);
    RaisedWordFree(b);
    DropTwoWords(a', b');
    assert '_' in s;
    assert UcWords(s, true) == a' + "_" + b';
    CamelizeApplied(s);
    LcFirstJoin(a, b');
  }

  lemma LcFirstJoin(a: string, b: string)
    requires a != "" && b != ""
    ensures LcFirst(([UpperChar(a[0])] + a[1..]) + b) == [LowerChar(UpperChar(a[0]))] + a[1..] + [b[0]] + b[1..]
  {
    var x := ([UpperChar(a[0])] + a[1..]) + b;
    assert x[0] == UpperChar(a[0]) && x[1..] == a[1..] + b;
    assert b == [b[0]] + b[1..];
  }

  lemma CamelizeApplied(s: string)
    requires CamelizeApplies(s)
    ensures Camelize(s) == LcFirst(DropUnderscores(UcWords(s, true)))
  {
  }

  lemma RaisedWordFree(w: string)
    requires w != "" && '_' !in w
    ensures '_' !in [UpperChar(w[0])] + w[1..]
  {
    assert w == [w[0]] + w[1..];
  }

  lemma DropTwoWords(a: string, b: string)
    requires '_' !in a && '_' !in b
    ensures DropUnderscores(a + "_" + b) == a + b
  {
    NoUnderscoreKept(a);
    NoUnderscoreKept(b);
    assert "_"[1..] == "";
    assert DropUnderscores("_") == "";
    DropUnderscoresConcat(a + "_", b);
    DropUnderscoresConcat(a, "_");
    assert DropUnderscores(a + "_") == a;
  }

  lemma UcWordsTwoWords(a: string, b: string)
    requires a != "" && b != "" && '_' !in a && '_' !in b
    ensures UcWords(a + "_" + b, true) == ([UpperChar(a[0])] + a[1..]) + "_" + ([UpperChar(b[0])] + b[1..])
  {
    UcWordsConcat(a, "_" + b, true);
    UcWordsConcat("_", b, false);
    UcWordsWord(a);
    UcWordsWord(b);
    assert a + "_" + b == a + ("_" + b);
  }

  /** One word: only its first letter is raised. */
  lemma UcWordsWord(w: string)
    requires w != "" && '_' !in w
    ensures UcWords(w, true) == [UpperChar(w[0])] + w[1..]
  {
    UcWordsPlain(w[1..]);
  }

  /** `ucwords` works piece by piece: the second piece starts a word when the
      first ends with an underscore. */
  lemma {:induction false} UcWordsConcat(x: string, y: string, start: bool)
    ensures UcWords(x + y, start) == UcWords(x, start) + UcWords(y, if x == "" then start else x[|x| - 1] == '_')
  {
    if x == "" {
      assert x + y == y;
    } else {
      assert (x + y)[0] == x[0] && (x + y)[1..] == x[1..] + y;
      UcWordsConcat(x[1..], y, x[0] == '_');
    }
  }

  /** Without underscores and outside a word start, nothing changes. */
  lemma {:induction false} UcWordsPlain(s: string)
    requires '_' !in s
    ensures UcWords(s, false) == s
  {
    if s != "" {
      UcWordsPlain(s[1..]);
    }
  }

  lemma {:induction false} NoUnderscoreKept(s: string)
    requires '_' !in s
    ensures DropUnderscores(s) == s
  {
    if s != "" {
      NoUnderscoreKept(s[1..]);
    }
  }

  lemma {:induction false} LcFirstKeepsUnderscoreFree(s: string)
    requires '_' !in s
    ensures '_' !in LcFirst(s)
  {
    if s != "" {
      assert LowerChar(s[0]) != '_';
      assert forall i | 1 <= i < |s| :: LcFirst(s)[i] == s[i];
    }
  }

  /** Camelising a camelised identifier changes nothing more. */
  lemma CamelizeIdempotent(s: string)
    ensures Camelize(Camelize(s)) == Camelize(s)
  {
  }

  // ---------------------------------------------------------------------
  // Pieces of the two patterns

  /** PCRE's `\w` without the `u` modifier. */
  predicate IsWordChar(c: char) {
    ('a' <= c <= 'z') || ('A' <= c <= 'Z') || ('0' <= c <= '9') || c == '_'
  }

  predicate NoNewline(t: string) {
    '\n' !in t
  }

  /** `t` is `body` up to the end, or up to a final newline. */
  predicate EndsAfter(t: string, body: string) {
    t == body || t == body + "\n"
  }

  /** `.*$` matched against all of `t`; the result is what `.*` captured. */
  function DotStarEnd(t: string): (r: Option<string>)
    ensures r.Some? ==> NoNewline(r.value) && EndsAfter(t, r.value)
    ensures NoNewline(t) ==> r == Some(t)
  {
    if NoNewline(t) then Some(t)
    else if |t| > 0 && t[|t| - 1] == '\n' && NoNewline(t[..|t| - 1]) then Some(t[..|t| - 1])
    else None
  }

  /** Index of the first newline at or after `from`, or `|s|`. */
  function NewlineFrom(s: string, from: nat): (r: nat)
    requires from <= |s|
    ensures from <= r <= |s|
    ensures forall i | from <= i < r :: s[i] != '\n'
    ensures r < |s| ==> s[r] == '\n'
    decreases |s| - from
  {
    if from == |s| || s[from] == '\n' then from else NewlineFrom(s, from + 1)
  }

  lemma NoNewlineSlice(s: string, from: nat, to: nat)
    requires from <= |s|
    requires from <= to <= NewlineFrom(s, from)
    ensures NoNewline(s[from..to])
  {
  }

  /** A bracketed prefix `(...)` closed at `j`, followed by what the rest of
      a pattern matched. */
  lemma BracketSplit(s: string, j: int, body: string)
    requires 0 < j < |s| && s[0] == '(' && s[j] == ')'
    requires EndsAfter(s[j + 1..], body)
    ensures EndsAfter(s, "(" + s[1..j] + ")" + body)
  {
    assert s == "(" + s[1..j] + ")" + s[j + 1..];
    assert "(" + s[1..j] + ")" + body + "\n" == "(" + s[1..j] + ")" + (body + "\n");
  }

  // ---------------------------------------------------------------------
  // The comment pattern  ^(?:\((.*)\))?(\w.*)$   (src/cli.php:106)

  /** The groups of a comment match: whether the bracketed group took part,
      the filter inside it ("" when it did not), and the comment text. */
  datatype CommentParts = CommentParts(bracketed: bool, filter: string, text: string)

  /** `(\w.*)$` against all of `r`. */
  function WordTail(r: string): (t: Option<string>)
    ensures t.Some? ==> |t.value| > 0 && IsWordChar(t.value[0]) && NoNewline(t.value)
    ensures t.Some? ==> EndsAfter(r, t.value)
  {
    if |r| > 0 && IsWordChar(r[0]) then
      match DotStarEnd(r[1..])
      case Some(t) =>
        assert [r[0]] + t + "\n" == [r[0]] + (t + "\n");
        Some([r[0]] + t)
      case None => None
    else None
  }

  /** Backtracking through the closing brackets at `j`, `j - 1`, ..., 1. */
  function CommentFrom(s: string, j: int): (p: Option<CommentParts>)
    requires |s| > 0 && s[0] == '('
    requires j < NewlineFrom(s, 1)
    ensures p.Some? ==> p.value.bracketed && NoNewline(p.value.filter)
    ensures p.Some? ==> EndsAfter(s, "(" + p.value.filter + ")" + p.value.text)
    ensures p.Some? ==> |p.value.text| > 0 && IsWordChar(p.value.text[0]) && NoNewline(p.value.text)
    decreases j
  {
    if j < 1 then None
    else if s[j] == ')' && WordTail(s[j + 1..]).Some? then
      var t := WordTail(s[j + 1..]).value;
      NoNewlineSlice(s, 1, j);
      BracketSplit(s, j, t);
      Some(CommentParts(true, s[1..j], t))
    else CommentFrom(s, j - 1)
  }

  function MatchComment(s: string): (p: Option<CommentParts>)
  {
    var bracketed := if |s| > 0 && s[0] == '(' then CommentFrom(s, NewlineFrom(s, 1) - 1) else None;
    if bracketed.Some? then bracketed
    else match WordTail(s)
      case Some(t) => Some(CommentParts(false, "", t))
      case None => None
  }

  /** What a comment match means: the line is an optional bracketed filter
      followed by one line of text that starts with a word character. */
  lemma MatchCommentSound(s: string)
    requires MatchComment(s).Some?
    ensures var p := MatchComment(s).value;
      && |p.text| > 0 && IsWordChar(p.text[0]) && NoNewline(p.text)
      && (p.bracketed ==> NoNewline(p.filter) && EndsAfter(s, "(" + p.filter + ")" + p.text))
      && (!p.bracketed ==> p.filter == "" && EndsAfter(s, p.text))
  {
  }

  /** A single line that starts with a word character is all comment. */
  lemma MatchCommentPlain(s: string)
    requires |s| > 0 && IsWordChar(s[0]) && NoNewline(s)
    ensures MatchComment(s) == Some(CommentParts(false, "", s))
  {
    assert DotStarEnd(s[1..]) == Some(s[1..]);
    assert [s[0]] + s[1..] == s;
  }

  // ---------------------------------------------------------------------
  // The left-side pattern  ^(?:\((.*)\))?(?:([^=]*)=)?([^=].*)?$   (src/cli.php:122)

  /** The groups of a left-side match. Groups that did not take part are "". */
  datatype LeftParts = LeftParts(bracketed: bool, filter: string, hasAssign: bool, assign: string, property: string)

  /** Index of the first '=' in `r`, or `|r|`. */
  function FirstEq(r: string): (k: nat)
    ensures k <= |r| && (k < |r| ==> r[k] == '=') && '=' !in r[..k]
  {
    if |r| == 0 then 0
    else if r[0] == '=' then 0
    else
      var k := FirstEq(r[1..]);
      assert r[..k + 1] == [r[0]] + r[1..][..k];
      k + 1
  }

  /** `([^=].*)?$` against all of `t`; the capture, or "" when the group did
      not take part. */
  function PropTail(t: string): (p: Option<string>)
    ensures p.Some? ==> EndsAfter(t, p.value)
    ensures p.Some? && p.value != "" ==> p.value[0] != '=' && NoNewline(p.value[1..])
  {
    if |t| > 0 && t[0] != '=' && DotStarEnd(t[1..]).Some? then
      var c := DotStarEnd(t[1..]).value;
      assert [t[0]] + c + "\n" == [t[0]] + (c + "\n");
      assert ([t[0]] + c)[1..] == c;
      Some([t[0]] + c)
    else if t == "" || t == "\n" then Some("")
    else None
  }

  /** The assignment part and property of a match, as they stand in the line. */
  function Core(p: LeftParts): string {
    (if p.hasAssign then p.assign + "=" else "") + p.property
  }

  /** The shape every left-side match has: the assignment target holds no
      '=' and the property does not start with one. */
  predicate WellShaped(p: LeftParts) {
    && '=' !in p.assign
    && (!p.hasAssign ==> p.assign == "")
    && (p.property != "" ==> p.property[0] != '=')
  }

  /** Splitting `r` at an '=' keeps the part after it as a tail of `r`. */
  lemma AssignSplit(r: string, k: nat, p: string)
    requires k < |r| && r[k] == '=' && EndsAfter(r[k + 1..], p)
    ensures EndsAfter(r, r[..k] + "=" + p)
  {
    assert r == r[..k] + "=" + r[k + 1..];
    assert r[..k] + "=" + p + "\n" == r[..k] + "=" + (p + "\n");
  }

  /** `(?:([^=]*)=)?([^=].*)?$` against all of `r`. */
  function RestParts(r: string): (q: Option<LeftParts>)
    ensures q.Some? ==> !q.value.bracketed && q.value.filter == ""
    ensures q.Some? ==> WellShaped(q.value) && EndsAfter(r, Core(q.value))
  {
    var k := FirstEq(r);
    var withAssign := if k < |r| then PropTail(r[k + 1..]) else None;
    if withAssign.Some? then
      var p := withAssign.value;
      AssignSplit(r, k, p);
      Some(LeftParts(false, "", true, r[..k], p))
    else match PropTail(r)
      case Some(p) => Some(LeftParts(false, "", false, "", p))
      case None => None
  }

  function LeftFrom(s: string, j: int): (p: Option<LeftParts>)
    requires |s| > 0 && s[0] == '('
    requires j < NewlineFrom(s, 1)
    ensures p.Some? ==> p.value.bracketed && NoNewline(p.value.filter)
    ensures p.Some? ==> WellShaped(p.value) && EndsAfter(s, "(" + p.value.filter + ")" + Core(p.value))
    decreases j
  {
    if j < 1 then None
    else if s[j] == ')' && RestParts(s[j + 1..]).Some? then
      var q := RestParts(s[j + 1..]).value;
      NoNewlineSlice(s, 1, j);
      BracketSplit(s, j, Core(q));
      Some(q.(bracketed := true, filter := s[1..j]))
    else LeftFrom(s, j - 1)
  }

  function MatchLeft(s: string): (p: Option<LeftParts>)
  {
    var bracketed := if |s| > 0 && s[0] == '(' then LeftFrom(s, NewlineFrom(s, 1) - 1) else None;
    if bracketed.Some? then bracketed else RestParts(s)
  }

  /** What a left-side match means: an optional bracketed filter, an optional
      assignment target without '=' that ends in '=', and a property that does
      not start with '='. */
  lemma MatchLeftSound(s: string)
    requires MatchLeft(s).Some?
    ensures var p := MatchLeft(s).value;
      && WellShaped(p)
      && (p.bracketed ==> NoNewline(p.filter) && EndsAfter(s, "(" + p.filter + ")" + Core(p)))
      && (!p.bracketed ==> p.filter == "" && EndsAfter(s, Core(p)))
  {
  }

  // ---------------------------------------------------------------------
  // Target filter (src/cli.php:109-111, 126-128)

  /** The names a filter lists, separated by '|'. */
  function FilterNames(filter: string): seq<string> {
    Explode(filter, '|')
  }

  /** A filter skips the feature when it is truthy and "php" does not stand
      in it as a whole '|'-separated name. */
  function FilterSkip(filter: string): (skip: bool)
    ensures skip <==> TruthyStr(filter) && !exists i :: PieceAt(filter, '|', "php", i)
  {
    ExplodeHas(filter, '|', "php");
    TruthyStr(filter) && "php" !in FilterNames(filter)
  }

  /** "php" counts only as a whole name, wherever it stands in the list. */
  lemma FilterSkipExamples()
    ensures !FilterSkip("php") && !FilterSkip("js|php") && !FilterSkip("php|js|go")
    ensures FilterSkip("js")
  {
    assert PieceAt("php", '|', "php", 0);
    assert PieceAt("js|php", '|', "php", 3);
    assert PieceAt("php|js|go", '|', "php", 0);
  }
}
