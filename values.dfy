/**
 * The value domain of the packspec interpreter.
 *
 * PHP has a single ordered, keyed array type that serves as both list and
 * dictionary. It is modelled as `Arr`, an ordered sequence of (key, value)
 * entries. PHP normalises a key string that spells a canonical decimal
 * integer to that integer, so keeping every key as its string spelling
 * (list positions as "0", "1", ...) loses nothing for lookups. Floats are
 * not part of the domain.
 */
module Values {

  datatype Option<+T> = None | Some(value: T)

  /** A PHP value as the interpreter sees it. */
  datatype Value =
    | Null
    | Bool(b: bool)
    | Int(i: int)
    | Str(s: string)
    | Arr(entries: seq<(string, Value)>)
    | Obj(id: nat)       // a PHP object that is not a closure
    | Closure(id: nat)   // a PHP Closure object, such as the `$import` builtin

  /** The result the interpreter records for a feature whose execution raised. */
  const ErrorSentinel: Value := Str("ERROR")

  /** PHP's conversion of a string to bool: only "" and "0" are false. */
  predicate TruthyStr(s: string) {
    s != "" && s != "0"
  }

  /** PHP's conversion of any value to bool. */
  predicate Truthy(v: Value) {
    match v
    case Null => false
    case Bool(b) => b
    case Int(i) => i != 0
    case Str(s) => TruthyStr(s)
    case Arr(e) => |e| > 0
    case Obj(_) => true
    case Closure(_) => true
  }

  /** PHP 8's loose comparison `v == null`: a string is compared with "",
      every other value is compared as a bool. */
  predicate Nullish(v: Value)
    ensures Nullish(v) <==> !Truthy(v) && v != Str("0")
  {
    match v
    case Str(s) => s == ""
    case _ => !Truthy(v)
  }

  // ---------------------------------------------------------------------
  // Keyed access to array entries

  predicate HasKey(e: seq<(string, Value)>, k: string) {
    exists i :: 0 <= i < |e| && e[i].0 == k
  }

  /** The value under key `k` (the first entry carrying it), if any. */
  function Lookup(e: seq<(string, Value)>, k: string): (r: Option<Value>)
    ensures r.Some? <==> HasKey(e, k)
    ensures r.Some? ==> exists i :: 0 <= i < |e| && e[i] == (k, r.value)
  {
    if |e| == 0 then None
    else if e[0].0 == k then Some(e[0].1)
    else
      var r := Lookup(e[1..], k);
      assert HasKey(e[1..], k) ==> HasKey(e, k) by {
        if HasKey(e[1..], k) {
          var i :| 0 <= i < |e[1..]| && e[1..][i].0 == k;
          assert e[i + 1].0 == k;
        }
      }
      assert HasKey(e, k) ==> HasKey(e[1..], k) by {
        if HasKey(e, k) {
          var i :| 0 <= i < |e| && e[i].0 == k;
          assert i > 0 && e[1..][i - 1].0 == k;
        }
      }
      if r.Some? then
        var i :| 0 <= i < |e[1..]| && e[1..][i] == (k, r.value);
        assert e[i + 1] == (k, r.value);
        r
      else r
  }

  /** The value under `k`, or null when the key is absent (PHP reads a
      missing offset as null). */
  function LookupOr(e: seq<(string, Value)>, k: string): Value {
    match Lookup(e, k)
    case Some(v) => v
    case None => Null
  }

  /** PHP's keyed write `$a[k] = v`: an existing key is overwritten where it
      stands, a new key is appended at the end. */
  function Put(e: seq<(string, Value)>, k: string, v: Value): (r: seq<(string, Value)>)
    ensures |r| == if HasKey(e, k) then |e| else |e| + 1
  {
    if |e| == 0 then [(k, v)]
    else if e[0].0 == k then [(k, v)] + e[1..]
    else [e[0]] + Put(e[1..], k, v)
  }

  /** The keys of an array, in order. */
  function Keys(e: seq<(string, Value)>): (r: seq<string>)
    ensures |r| == |e| && forall i :: 0 <= i < |e| ==> r[i] == e[i].0
  {
    seq(|e|, i requires 0 <= i < |e| => e[i].0)
  }

  /** The values of an array, in order (what `foreach ($a as $v)` visits). */
  function ValuesOf(e: seq<(string, Value)>): (r: seq<Value>)
    ensures |r| == |e| && forall i :: 0 <= i < |e| ==> r[i] == e[i].1
  {
    seq(|e|, i requires 0 <= i < |e| => e[i].1)
  }

  lemma {:induction false} PutFinds(e: seq<(string, Value)>, k: string, v: Value)
    ensures Lookup(Put(e, k, v), k) == Some(v)
  {
    if |e| > 0 && e[0].0 != k {
      PutFinds(e[1..], k, v);
      assert Put(e, k, v)[1..] == Put(e[1..], k, v);
    }
  }

  lemma {:induction false} PutKeepsOthers(e: seq<(string, Value)>, k: string, v: Value, k': string)
    requires k' != k
    ensures Lookup(Put(e, k, v), k') == Lookup(e, k')
  {
    if |e| > 0 {
      if e[0].0 == k {
        assert Put(e, k, v)[1..] == e[1..];
      } else if e[0].0 != k' {
        PutKeepsOthers(e[1..], k, v, k');
        assert Put(e, k, v)[1..] == Put(e[1..], k, v);
      }
    }
  }

  lemma {:induction false} PutKeys(e: seq<(string, Value)>, k: string, v: Value)
    ensures Keys(Put(e, k, v)) == if HasKey(e, k) then Keys(e) else Keys(e) + [k]
  {
    if |e| > 0 {
      var rest := e[1..];
      assert e == [e[0]] + rest;
      KeysCons(e[0], rest);
      HasKeyCons(e, k);
      if e[0].0 == k {
        KeysCons((k, v), rest);
      } else {
        PutKeys(rest, k, v);
        assert Put(e, k, v) == [e[0]] + Put(rest, k, v);
        KeysCons(e[0], Put(rest, k, v));
        if !HasKey(rest, k) {
          assert [e[0].0] + (Keys(rest) + [k]) == ([e[0].0] + Keys(rest)) + [k];
        }
      }
    }
  }

  lemma HasKeyCons(e: seq<(string, Value)>, k: string)
    requires |e| > 0
    ensures HasKey(e, k) <==> e[0].0 == k || HasKey(e[1..], k)
  {
    if HasKey(e, k) && e[0].0 != k {
      var i :| 0 <= i < |e| && e[i].0 == k;
      assert e[1..][i - 1].0 == k;
    }
    if HasKey(e[1..], k) {
      var i :| 0 <= i < |e[1..]| && e[1..][i].0 == k;
      assert e[i + 1].0 == k;
    }
  }

  lemma KeysCons(x: (string, Value), r: seq<(string, Value)>)
    ensures Keys([x] + r) == [x.0] + Keys(r)
  {
    assert forall i | 0 <= i < |r| + 1 :: Keys([x] + r)[i] == ([x.0] + Keys(r))[i];
  }

  // ---------------------------------------------------------------------
  // Strings

  function DigitChar(d: nat): char
    requires d < 10
  {
    "0123456789"[d]
  }

  /** The decimal spelling of a natural number. */
  function NatToString(n: nat): (r: string)
    ensures |r| >= 1
    decreases n
  {
    if n < 10 then [DigitChar(n)] else NatToString(n / 10) + [DigitChar(n % 10)]
  }

  predicate IsDigit(c: char) {
    '0' <= c <= '9'
  }

  predicate AllDigits(s: string) {
    forall i | 0 <= i < |s| :: IsDigit(s[i])
  }

  /** The number a string of decimal digits spells. */
  function DecimalValue(s: string): (n: nat)
    requires AllDigits(s)
    ensures |s| <= 1 ==> n < 10
    decreases |s|
  {
    if |s| == 0 then 0
    else DecimalValue(s[..|s| - 1]) * 10 + (s[|s| - 1] as int - '0' as int)
  }

  const MaxInt: nat := 0x7FFF_FFFF_FFFF_FFFF

  /** A key PHP stores as an integer: the canonical decimal spelling (no sign
      on zero, no leading zero, an optional '-') of a value in the 64-bit
      range. */
  predicate IntegerKey(k: string) {
    var neg := |k| > 0 && k[0] == '-';
    var digits := if neg then k[1..] else k;
    && |digits| > 0 && AllDigits(digits)
    && (digits[0] != '0' || (digits == "0" && !neg))
    && DecimalValue(digits) <= if neg then MaxInt + 1 else MaxInt
  }

  /** The spelling of a list position is an integer key. */
  lemma NatToStringIsIntegerKey(n: nat)
    requires n <= MaxInt
    ensures IntegerKey(NatToString(n))
  {
    NatToStringDigits(n);
  }

  lemma {:induction false} NatToStringDigits(n: nat)
    ensures AllDigits(NatToString(n)) && DecimalValue(NatToString(n)) == n
    ensures NatToString(n)[0] != '0' || n == 0
    ensures NatToString(n)[0] != '-'
    decreases n
  {
    if n >= 10 {
      NatToStringDigits(n / 10);
      var r := NatToString(n);
      assert r[..|r| - 1] == NatToString(n / 10);
    }
  }

  /** A PHP list: the values keyed by their positions. */
  function ListOf(vs: seq<Value>): (r: Value)
    ensures r.Arr? && ValuesOf(r.entries) == vs
  {
    Arr(seq(|vs|, i requires 0 <= i < |vs| => (NatToString(i), vs[i])))
  }

  /** ASCII lower-casing, as PHP 8's `strtolower`. */
  function LowerChar(c: char): char {
    if 'A' <= c <= 'Z' then (c as int + 32) as char else c
  }

  /** ASCII upper-casing, as PHP 8's `strtoupper` on one byte. */
  function UpperChar(c: char): char {
    if 'a' <= c <= 'z' then (c as int - 32) as char else c
  }

  /** PHP 8's `strtolower`: no upper-case ASCII letter survives, each one
      becomes its lower-case partner 32 code points up, and every other
      character is kept where it stands. */
  function ToLower(s: string): (r: string)
    ensures |r| == |s|
    ensures forall i :: 0 <= i < |r| ==> !('A' <= r[i] <= 'Z')
    ensures forall i :: 0 <= i < |s| && !('A' <= s[i] <= 'Z') ==> r[i] == s[i]
    ensures forall i :: 0 <= i < |s| && 'A' <= s[i] <= 'Z' ==> r[i] as int == s[i] as int + 32
  {
    seq(|s|, i requires 0 <= i < |s| => LowerChar(s[i]))
  }

  /** Lower-casing twice is lower-casing once. */
  lemma ToLowerIdempotent(s: string)
    ensures ToLower(ToLower(s)) == ToLower(s)
  {
  }

  predicate EndsWith(s: string, suffix: string) {
    |suffix| <= |s| && s[|s| - |suffix|..] == suffix
  }

  /** PHP's `explode(d, s)`: the pieces between the separators, always at
      least one. */
  function Explode(s: string, d: char): (r: seq<string>)
    ensures |r| >= 1
    decreases |s|
  {
    if |s| == 0 then [""]
    else
      var rest := Explode(s[1..], d);
      if s[0] == d then [""] + rest else [[s[0]] + rest[0]] + rest[1..]
  }

  /** PHP's `implode(d, pieces)`, the inverse of `Explode`. */
  function Implode(pieces: seq<string>, d: char): string
    requires |pieces| >= 1
  {
    if |pieces| == 1 then pieces[0] else pieces[0] + [d] + Implode(pieces[1..], d)
  }

  /** Explode loses nothing: joining the pieces gives back the string, and no
      piece holds the separator. */
  lemma {:induction false} ExplodeImplode(s: string, d: char)
    ensures Implode(Explode(s, d), d) == s
    ensures forall i :: 0 <= i < |Explode(s, d)| ==> d !in Explode(s, d)[i]
    decreases |s|
  {
    if |s| > 0 {
      var rest := Explode(s[1..], d);
      ExplodeImplode(s[1..], d);
      if s[0] == d {
        assert Explode(s, d)[1..] == rest;
        assert s == [d] + s[1..];
      } else {
        var r := Explode(s, d);
        assert r[0] == [s[0]] + rest[0];
        if |rest| == 1 {
          assert s == [s[0]] + s[1..];
        } else {
          assert r[1..] == rest[1..];
          assert Implode(rest, d) == rest[0] + [d] + Implode(rest[1..], d);
          assert s == [s[0]] + s[1..];
        }
        forall i | 0 <= i < |r| ensures d !in r[i] {
          if i > 0 { assert r[i] == rest[i]; }
        }
      }
    }
  }

  /** `w` stands in `s` from position `i` as a whole piece: it is preceded by
      the separator or the start, and followed by the separator or the end. */
  predicate PieceAt(s: string, d: char, w: string, i: int) {
    && 0 <= i && i + |w| <= |s| && s[i..i + |w|] == w
    && (i == 0 || s[i - 1] == d)
    && (i + |w| == |s| || s[i + |w|] == d)
  }

  /** The first piece of `explode` is the longest prefix without the
      separator; what follows it is the separator and the remaining pieces. */
  lemma {:induction false} ExplodeCut(s: string, d: char)
    ensures var r := Explode(s, d); var n := |r[0]|;
      && n <= |s| && s[..n] == r[0] && d !in r[0]
      && (n == |s| ==> |r| == 1)
      && (n < |s| ==> s[n] == d && r[1..] == Explode(s[n + 1..], d))
    decreases |s|
  {
    if |s| > 0 {
      var rest := Explode(s[1..], d);
      ExplodeCut(s[1..], d);
      if s[0] == d {
        assert Explode(s, d)[1..] == rest;
      } else {
        var n := |rest[0]|;
        assert Explode(s, d)[0] == [s[0]] + rest[0];
        assert s[..n + 1] == [s[0]] + s[1..][..n];
        if n < |s[1..]| {
          assert s[1..][n + 1..] == s[n + 2..];
          assert Explode(s, d)[1..] == rest[1..];
        }
      }
    }
  }

  /** The first piece is the only whole piece that starts at 0. */
  lemma FirstPiece(s: string, d: char, w: string)
    requires d !in w
    ensures PieceAt(s, d, w, 0) <==> w == Explode(s, d)[0]
  {
    ExplodeCut(s, d);
    var p := Explode(s, d)[0];
    var n := |p|;
    if PieceAt(s, d, w, 0) {
      assert s[..|w|] == w;
    }
  }

  /** No whole piece starts inside the first one. */
  lemma NoPieceInFirst(s: string, d: char, w: string, i: int)
    requires 0 < i <= |Explode(s, d)[0]|
    ensures !PieceAt(s, d, w, i)
  {
    ExplodeCut(s, d);
    assert s[i - 1] == Explode(s, d)[0][i - 1];
  }

  /** Past a separator at `n`, whole pieces of `s` are those of the rest. */
  lemma PieceShift(s: string, d: char, w: string, n: nat, i: int)
    requires n < |s| && s[n] == d && i > n
    ensures PieceAt(s, d, w, i) <==> PieceAt(s[n + 1..], d, w, i - n - 1)
  {
    if i + |w| <= |s| {
      assert s[i..i + |w|] == s[n + 1..][i - n - 1..i - n - 1 + |w|];
    }
  }

  /** A separator-free word is one of the pieces of `explode` exactly when
      it stands in the string as a whole piece. */
  lemma ExplodeHas(s: string, d: char, w: string)
    requires d !in w
    ensures w in Explode(s, d) <==> exists i :: PieceAt(s, d, w, i)
  {
    if w in Explode(s, d) {
      var i := PieceOfExplode(s, d, w);
    }
    if exists i :: PieceAt(s, d, w, i) {
      var i :| PieceAt(s, d, w, i);
      ExplodeOfPiece(s, d, w, i);
    }
  }

  /** Each piece of `explode` stands in the string as a whole piece. */
  lemma {:induction false} PieceOfExplode(s: string, d: char, w: string) returns (i: int)
    requires d !in w && w in Explode(s, d)
    ensures PieceAt(s, d, w, i)
    decreases |s|
  {
    var r := Explode(s, d);
    ExplodeCut(s, d);
    FirstPiece(s, d, w);
    var n := |r[0]|;
    if w == r[0] {
      i := 0;
    } else {
      assert r == [r[0]] + r[1..];
      var j := PieceOfExplode(s[n + 1..], d, w);
      PieceShift(s, d, w, n, j + n + 1);
      i := j + n + 1;
    }
  }

  /** Each whole piece of the string is a piece of `explode`. */
  lemma {:induction false} ExplodeOfPiece(s: string, d: char, w: string, i: int)
    requires d !in w && PieceAt(s, d, w, i)
    ensures w in Explode(s, d)
    decreases |s|
  {
    var r := Explode(s, d);
    ExplodeCut(s, d);
    FirstPiece(s, d, w);
    var n := |r[0]|;
    if 0 < i <= n {
      NoPieceInFirst(s, d, w, i);
    } else if i > n {
      PieceShift(s, d, w, n, i);
      ExplodeOfPiece(s[n + 1..], d, w, i - n - 1);
      assert w in r[1..];
    }
  }

  // ---------------------------------------------------------------------
  // Structural equality

  /**
   * The comparison used for verdicts. It stands in for PHP's loose `==`:
   * scalars and handles compare by identity, arrays compare as sets of
   * key/value pairs (the same keys on both sides, equal values under each
   * key), so the order in which keys were inserted does not matter.
   */
  predicate Equal(a: Value, b: Value)
    ensures Equal(a, b) ==> (a.Arr? <==> b.Arr?) && (Truthy(a) <==> Truthy(b))
    decreases a
  {
    match a
    case Arr(ea) =>
      var same :=
        && b.Arr?
        && (forall i | 0 <= i < |ea| :: HasKey(b.entries, ea[i].0))
        && (forall j | 0 <= j < |b.entries| :: HasKey(ea, b.entries[j].0))
        && forall i | 0 <= i < |ea| :: Equal(ea[i].1, LookupOr(b.entries, ea[i].0));
      assert same && |ea| > 0 ==> HasKey(b.entries, ea[0].0);
      assert same && |b.entries| > 0 ==> HasKey(ea, b.entries[0].0);
      same
    case _ => a == b
  }

  /** Unique keys, at every depth, as every PHP array has. */
  predicate WellKeyed(v: Value)
    decreases v
  {
    match v
    case Arr(e) =>
      && (forall i, j | 0 <= i < j < |e| :: e[i].0 != e[j].0)
      && forall i | 0 <= i < |e| :: WellKeyed(e[i].1)
    case _ => true
  }

  lemma {:induction false} LookupUnique(e: seq<(string, Value)>, i: int)
    requires 0 <= i < |e|
    requires forall x, y | 0 <= x < y < |e| :: e[x].0 != e[y].0
    ensures Lookup(e, e[i].0) == Some(e[i].1)
  {
    if i > 0 {
      LookupUnique(e[1..], i - 1);
    }
  }

  /** Every well-keyed value equals itself. */
  lemma {:induction false} EqualReflexive(v: Value)
    requires WellKeyed(v)
    ensures Equal(v, v)
    decreases v
  {
    match v
    case Arr(e) =>
      forall i | 0 <= i < |e| ensures HasKey(e, e[i].0) && Equal(e[i].1, LookupOr(e, e[i].0)) {
        LookupUnique(e, i);
        EqualReflexive(e[i].1);
      }
    case _ =>
  }

  /** The comparison is symmetric once the right-hand side has unique keys,
      as every PHP array does. */
  lemma {:induction false} EqualSymmetric(a: Value, b: Value)
    requires WellKeyed(b)
    requires Equal(a, b)
    ensures Equal(b, a)
    decreases a
  {
    match a
    case Arr(ea) =>
      var eb := b.entries;
      forall j | 0 <= j < |eb| ensures Equal(eb[j].1, LookupOr(ea, eb[j].0)) {
        var k := eb[j].0;
        assert HasKey(ea, k);
        var i :| 0 <= i < |ea| && ea[i] == (k, LookupOr(ea, k));
        LookupUnique(eb, j);
        assert Equal(ea[i].1, eb[j].1);
        EqualSymmetric(ea[i].1, eb[j].1);
      }
    case _ =>
  }

  /** Two arrays holding the same values under the same keys are equal,
      whatever order their entries are in. */
  lemma EqualIgnoresOrder(ea: seq<(string, Value)>, eb: seq<(string, Value)>)
    requires WellKeyed(Arr(ea))
    requires forall k :: Lookup(ea, k) == Lookup(eb, k)
    ensures Equal(Arr(ea), Arr(eb))
  {
    forall i | 0 <= i < |ea| ensures HasKey(eb, ea[i].0) && Equal(ea[i].1, LookupOr(eb, ea[i].0)) {
      LookupUnique(ea, i);
      assert Lookup(eb, ea[i].0) == Some(ea[i].1);
      EqualReflexive(ea[i].1);
    }
    forall j | 0 <= j < |eb| ensures HasKey(ea, eb[j].0) {
      assert Lookup(eb, eb[j].0).Some? by { assert HasKey(eb, eb[j].0); }
      assert Lookup(ea, eb[j].0) == Lookup(eb, eb[j].0);
    }
  }
}
