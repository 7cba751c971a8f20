/**
 * PHP runtime values and the handful of PHP built-ins the plugin's mapping
 * code relies on (string casts, `is_scalar`, `is_numeric`, `trim`,
 * `str_replace`, `implode`, `array_unique`, `array_merge`, `??`).
 *
 * PHP strings are byte strings, so a string here is a sequence of bytes;
 * a PHP array is an ordered sequence of key/value pairs.
 */
module Php {

  /** One byte of a PHP string. */
  type Byte = c: char | c <= 'ÿ'

  /** A PHP string. */
  type Bytes = seq<Byte>

  datatype Option<+T> = None | Some(value: T)

  /** A PHP array key: PHP stores integer-like keys as integers. */
  datatype Key = KInt(i: int) | KStr(s: Bytes)

  /** A PHP value (floats, objects and resources are not modelled). */
  datatype Value =
    | Str(s: Bytes)
    | Int(i: int)
    | Bool(b: bool)
    | Arr(entries: seq<(Key, Value)>)
    | Null

  type PArray = seq<(Key, Value)>

  // ---------------------------------------------------------------------------
  // Arrays
  // ---------------------------------------------------------------------------

  predicate HasKey(a: PArray, k: Key) {
    exists i :: 0 <= i < |a| && a[i].0 == k
  }

  /** `$a[$k]` when the key exists (`array_key_exists`), otherwise None. */
  function Get(a: PArray, k: Key): Option<Value> {
    if a == [] then None
    else if a[0].0 == k then Some(a[0].1)
    else Get(a[1..], k)
  }

  /** A lookup finds a value exactly when the key is present, and the value is stored under it. */
  lemma {:induction false} GetSpec(a: PArray, k: Key)
    ensures Get(a, k).Some? <==> HasKey(a, k)
    ensures Get(a, k).Some? ==> exists i :: 0 <= i < |a| && a[i] == (k, Get(a, k).value)
  {
    if a != [] && a[0].0 != k {
      GetSpec(a[1..], k);
      if HasKey(a, k) {
        var i :| 0 <= i < |a| && a[i].0 == k;
        assert a[1..][i - 1].0 == k;
      }
      if Get(a, k).Some? {
        var i :| 0 <= i < |a[1..]| && a[1..][i] == (k, Get(a, k).value);
        assert a[i + 1] == (k, Get(a, k).value);
      }
    }
  }

  /** `$a[$k] ?? $default`: the default also replaces a stored null. */
  function Coalesce(a: PArray, k: Key, default: Value): (r: Value)
    ensures Get(a, k) == Some(r) || r == default
    ensures (Get(a, k).Some? && !Get(a, k).value.Null?) ==> Get(a, k) == Some(r)
  {
    match Get(a, k)
    case Some(v) => if v.Null? then default else v
    case None => default
  }

  /** The keys of a PHP array are pairwise distinct. */
  predicate DistinctKeys(a: PArray) {
    forall i, j :: 0 <= i < j < |a| ==> a[i].0 != a[j].0
  }

  /** Every array inside the value, at any depth, has distinct keys. */
  predicate WellFormed(v: Value) {
    match v
    case Arr(es) => DistinctKeys(es) && forall i :: 0 <= i < |es| ==> WellFormed(es[i].1)
    case _ => true
  }

  /** A sequence of values stored as a PHP list (keys 0, 1, 2, ...). */
  function ListOf(xs: seq<Value>): (r: PArray)
    ensures |r| == |xs|
    ensures forall i :: 0 <= i < |r| ==> r[i] == (KInt(i), xs[i])
  {
    seq(|xs|, i requires 0 <= i < |xs| => (KInt(i), xs[i]))
  }

  function StrList(xs: seq<Bytes>): (r: seq<Value>)
    ensures |r| == |xs|
    ensures forall i :: 0 <= i < |r| ==> r[i] == Str(xs[i])
  {
    seq(|xs|, i requires 0 <= i < |xs| => Str(xs[i]))
  }

  /** The values of an array, in order (what `foreach ($a as $v)` visits). */
  function Values(a: PArray): (r: seq<Value>)
    ensures |r| == |a|
    ensures forall i :: 0 <= i < |r| ==> r[i] == a[i].1
  {
    seq(|a|, i requires 0 <= i < |a| => a[i].1)
  }

  /**
   * `$a[$k] = $v` on an array with string key `k`: overwrite in place when
   * the key exists, otherwise append.
   */
  function Put(a: PArray, k: Key, v: Value): (r: PArray)
    ensures Get(r, k) == Some(v)
    ensures forall k' :: k' != k ==> Get(r, k') == Get(a, k')
    ensures HasKey(a, k) ==> |r| == |a|
    ensures !HasKey(a, k) ==> r == a + [(k, v)]
  {
    if a == [] then [(k, v)]
    else if a[0].0 == k then [(k, v)] + a[1..]
    else
      var rest := Put(a[1..], k, v);
      assert HasKey(a, k) ==> HasKey(a[1..], k) by {
        if HasKey(a, k) {
          var i :| 0 <= i < |a| && a[i].0 == k;
          assert a[1..][i - 1].0 == k;
        }
      }
      var r := [a[0]] + rest;
      assert a == [a[0]] + a[1..];
      assert r[0] == a[0] && r[1..] == rest;
      r
  }

  /** The next integer key PHP would give an appended element. */
  function NextIndex(a: PArray): int {
    if a == [] then 0
    else
      var n := NextIndex(a[..|a| - 1]);
      match a[|a| - 1].0
      case KInt(i) => if i + 1 > n then i + 1 else n
      case KStr(_) => n
  }

  /**
   * `array_merge($a, $b)`: string keys of `b` overwrite those of `a` in
   * place; integer keys are renumbered and appended.
   */
  function ArrayMerge(a: PArray, b: PArray): (r: PArray)
    decreases |b|
  {
    if b == [] then Renumber(a)
    else
      var m := ArrayMerge(a, b[..|b| - 1]);
      var (k, v) := b[|b| - 1];
      match k
      case KStr(_) => Put(m, k, v)
      case KInt(_) => m + [(KInt(NextIndex(m)), v)]
  }

  /** `array_merge($a)`: integer keys renumbered from 0, string keys kept. */
  function Renumber(a: PArray): (r: PArray)
    decreases |a|
  {
    if a == [] then []
    else
      var m := Renumber(a[..|a| - 1]);
      var (k, v) := a[|a| - 1];
      match k
      case KStr(_) => Put(m, k, v)
      case KInt(_) => m + [(KInt(NextIndex(m)), v)]
  }

  /** Appending under a fresh integer key leaves string-key lookups alone. */
  lemma AppendIntKeyPreserves(m: PArray, n: int, v: Value, k: Key)
    requires k.KStr?
    ensures Get(m + [(KInt(n), v)], k) == Get(m, k)
  {
    if m != [] {
      assert (m + [(KInt(n), v)])[1..] == m[1..] + [(KInt(n), v)];
      AppendIntKeyPreserves(m[1..], n, v, k);
    }
  }

  /**
   * In `array_merge($a, $b)`, a string key of `b` has `b`'s value and a
   * string key found only in `a` keeps `a`'s value.
   */
  lemma {:induction false} ArrayMergeGet(a: PArray, b: PArray, k: Key)
    requires k.KStr?
    ensures HasKey(b, k) ==> Get(ArrayMerge(a, b), k) == LastValue(b, k)
    ensures !HasKey(b, k) ==> Get(ArrayMerge(a, b), k) == LastValue(a, k)
    decreases |b|
  {
    if b == [] {
      RenumberGet(a, k);
    } else {
      var init := b[..|b| - 1];
      ArrayMergeGet(a, init, k);
      var m := ArrayMerge(a, init);
      var (k', v) := b[|b| - 1];
      HasKeySnoc(init, b[|b| - 1], k);
      assert b == init + [b[|b| - 1]];
      if k'.KInt? {
        AppendIntKeyPreserves(m, NextIndex(m), v, k);
      }
    }
  }

  lemma {:induction false} RenumberGet(a: PArray, k: Key)
    requires k.KStr?
    ensures Get(Renumber(a), k) == LastValue(a, k)
    decreases |a|
  {
    if a != [] {
      var init := a[..|a| - 1];
      RenumberGet(init, k);
      var m := Renumber(init);
      var (k', v) := a[|a| - 1];
      if k'.KInt? {
        AppendIntKeyPreserves(m, NextIndex(m), v, k);
      }
    }
  }

  lemma HasKeySnoc(a: PArray, e: (Key, Value), k: Key)
    ensures HasKey(a + [e], k) <==> HasKey(a, k) || e.0 == k
  {
    if HasKey(a + [e], k) {
      var i :| 0 <= i < |a + [e]| && (a + [e])[i].0 == k;
      if i < |a| { assert a[i].0 == k; }
    }
    if HasKey(a, k) {
      var i :| 0 <= i < |a| && a[i].0 == k;
      assert (a + [e])[i].0 == k;
    }
    if e.0 == k {
      assert (a + [e])[|a|].0 == k;
    }
  }

  /** The value of the last pair with key `k` (the one PHP's writes leave). */
  function LastValue(a: PArray, k: Key): (r: Option<Value>)
    ensures r.Some? <==> HasKey(a, k)
    ensures DistinctKeys(a) ==> r == Get(a, k)
  {
    if a == [] then None
    else
      var init := a[..|a| - 1];
      HasKeySnoc(init, a[|a| - 1], k);
      assert a == init + [a[|a| - 1]];
      if a[|a| - 1].0 == k then
        (assert DistinctKeys(a) ==> Get(a, k) == Some(a[|a| - 1].1) by {
          if DistinctKeys(a) { GetUniqueAt(a, |a| - 1); }
        }
        Some(a[|a| - 1].1))
      else
        (assert DistinctKeys(a) ==> LastValue(init, k) == Get(init, k) && Get(a, k) == Get(init, k) by {
          if DistinctKeys(a) { GetSnocOther(init, a[|a| - 1], k); }
        }
        LastValue(init, k))
  }

  lemma GetUniqueAt(a: PArray, i: int)
    requires DistinctKeys(a) && 0 <= i < |a|
    ensures Get(a, a[i].0) == Some(a[i].1)
  {
    if i > 0 {
      assert a[0].0 != a[i].0;
      assert DistinctKeys(a[1..]) by {
        forall p, q | 0 <= p < q < |a[1..]| ensures a[1..][p].0 != a[1..][q].0 {
          assert a[p + 1].0 != a[q + 1].0;
        }
      }
      GetUniqueAt(a[1..], i - 1);
    }
  }

  lemma GetSnocOther(a: PArray, e: (Key, Value), k: Key)
    requires e.0 != k
    ensures Get(a + [e], k) == Get(a, k)
  {
    if a == [] {
    } else {
      assert (a + [e])[1..] == a[1..] + [e];
      GetSnocOther(a[1..], e, k);
    }
  }

  // ---------------------------------------------------------------------------
  // Type tests and casts
  // ---------------------------------------------------------------------------

  /** `is_scalar` (for the value kinds modelled: strings, ints, bools). */
  predicate IsScalar(v: Value) {
    v.Str? || v.Int? || v.Bool?
  }

  predicate IsDigit(c: Byte) {
    '0' <= c <= '9'
  }

  predicate AllDigits(s: Bytes) {
    forall i :: 0 <= i < |s| ==> IsDigit(s[i])
  }

  /** A numeric string, restricted to an optional sign and decimal digits. */
  predicate IsNumericString(s: Bytes) {
    if |s| > 0 && (s[0] == '+' || s[0] == '-') then |s| > 1 && AllDigits(s[1..])
    else |s| > 0 && AllDigits(s)
  }

  /** `is_numeric`. */
  predicate IsNumeric(v: Value) {
    v.Int? || (v.Str? && IsNumericString(v.s))
  }

  function DigitValue(c: Byte): int
    requires IsDigit(c)
  {
    c as int - '0' as int
  }

  /** The number of leading decimal digits. */
  function LeadingDigitCount(s: Bytes): (n: nat)
    ensures n <= |s| && AllDigits(s[..n])
    ensures n < |s| ==> !IsDigit(s[n])
  {
    if s == [] || !IsDigit(s[0]) then 0
    else
      var n := 1 + LeadingDigitCount(s[1..]);
      assert s[..n] == [s[0]] + s[1..][..n - 1];
      n
  }

  /** The number a string of decimal digits spells. */
  function DigitsValue(s: Bytes): nat
    requires AllDigits(s)
  {
    if s == [] then 0 else DigitsValue(s[..|s| - 1]) * 10 + DigitValue(s[|s| - 1])
  }

  /** `(int)` applied to a string: an optional sign and the leading digits. */
  function StringToInt(s: Bytes): int {
    if |s| > 0 && (s[0] == '-' || s[0] == '+') then
      var t := s[1..];
      var v: int := DigitsValue(t[..LeadingDigitCount(t)]);
      if s[0] == '-' then -v else v
    else DigitsValue(s[..LeadingDigitCount(s)])
  }

  /** `(int)` cast. */
  function ToInt(v: Value): int {
    match v
    case Int(i) => i
    case Bool(b) => if b then 1 else 0
    case Null => 0
    case Str(s) => StringToInt(s)
    case Arr(es) => if es == [] then 0 else 1
  }

  function DigitChar(d: int): (c: Byte)
    requires 0 <= d < 10
    ensures IsDigit(c) && DigitValue(c) == d
  {
    ('0' as int + d) as char
  }

  lemma {:induction false} AllDigitsCount(s: Bytes)
    requires AllDigits(s)
    ensures LeadingDigitCount(s) == |s|
    decreases |s|
  {
    if s != [] {
      AllDigitsCount(s[1..]);
    }
  }

  /** Decimal notation of a natural number, without leading zeros. */
  function NatToString(n: nat): (r: Bytes)
    ensures |r| > 0 && AllDigits(r)
    ensures DigitsValue(r) == n
  {
    if n < 10 then [DigitChar(n)]
    else
      var hi := NatToString(n / 10);
      var r := hi + [DigitChar(n % 10)];
      assert r[..|r| - 1] == hi;
      r
  }

  /** `(string)` of an int. */
  function IntToString(i: int): Bytes {
    if i < 0 then "-" + NatToString(-i) else NatToString(i)
  }

  /** The decimal form of an int is numeric and casts back to the same int. */
  lemma IntToStringRoundTrip(i: int)
    ensures IsNumericString(IntToString(i))
    ensures StringToInt(IntToString(i)) == i
  {
    var d := NatToString(if i < 0 then -i else i);
    AllDigitsCount(d);
    assert d[..|d|] == d;
    if i < 0 {
      assert ("-" + d)[1..] == d;
    }
  }

  /** `(string)` cast (arrays become the word "Array", as PHP does). */
  function ToStr(v: Value): Bytes {
    match v
    case Str(s) => s
    case Int(i) => IntToString(i)
    case Bool(b) => if b then "1" else ""
    case Null => ""
    case Arr(_) => "Array"
  }

  /** `(array)` cast. */
  function ToArray(v: Value): PArray {
    match v
    case Arr(es) => es
    case Null => []
    case _ => [(KInt(0), v)]
  }

  /** PHP's `empty()` on a string: both "" and "0" are empty. */
  predicate IsEmptyString(s: Bytes) {
    s == "" || s == "0"
  }

  // ---------------------------------------------------------------------------
  // Strings
  // ---------------------------------------------------------------------------

  /** The characters `trim()` removes by default. */
  predicate IsTrimmed(c: Byte) {
    c == ' ' || c == '\t' || c == '\n' || c == '\r' || c == '\0' || c == '\U{B}'
  }

  function TrimLeft(s: Bytes): Bytes {
    if s != [] && IsTrimmed(s[0]) then TrimLeft(s[1..]) else s
  }

  function TrimRight(s: Bytes): Bytes {
    if s != [] && IsTrimmed(s[|s| - 1]) then TrimRight(s[..|s| - 1]) else s
  }

  /** `trim()`. */
  function Trim(s: Bytes): Bytes {
    TrimRight(TrimLeft(s))
  }

  lemma {:induction false} TrimLeftShape(s: Bytes)
    ensures var r := TrimLeft(s);
      |r| <= |s| && r == s[|s| - |r|..] && (r != [] ==> !IsTrimmed(r[0]))
    decreases |s|
  {
    if s != [] && IsTrimmed(s[0]) { TrimLeftShape(s[1..]); }
  }

  lemma {:induction false} TrimRightShape(s: Bytes)
    ensures var r := TrimRight(s);
      |r| <= |s| && r == s[..|r|] && (r != [] ==> !IsTrimmed(r[|r| - 1]))
    decreases |s|
  {
    if s != [] && IsTrimmed(s[|s| - 1]) { TrimRightShape(s[..|s| - 1]); }
  }

  /** `trim()` leaves no removable byte at either end and never lengthens. */
  lemma TrimShape(s: Bytes)
    ensures var r := Trim(s);
      |r| <= |s| && (r != [] ==> !IsTrimmed(r[0]) && !IsTrimmed(r[|r| - 1]))
  {
    var l := TrimLeft(s);
    TrimLeftShape(s);
    TrimRightShape(l);
    var r := TrimRight(l);
    assert r != [] ==> r[0] == l[0];
  }

  function LowerByte(c: Byte): Byte {
    if 'A' <= c <= 'Z' then (c as int + 32) as char else c
  }

  /** `strtolower()` (ASCII letters only, as PHP 8.2 onward). */
  function ToLower(s: Bytes): (r: Bytes)
    ensures |r| == |s|
    ensures forall i :: 0 <= i < |s| ==> r[i] == LowerByte(s[i])
  {
    seq(|s|, i requires 0 <= i < |s| => LowerByte(s[i]))
  }

  predicate StartsWith(s: Bytes, p: Bytes) {
    |p| <= |s| && s[..|p|] == p
  }

  /** `str_contains()`. */
  predicate Contains(s: Bytes, p: Bytes)
    decreases |s|
  {
    StartsWith(s, p) || (s != [] && Contains(s[1..], p))
  }

  /**
   * `str_replace($pat, $rep, $s)` for one non-empty pattern: scan left to
   * right, replacing each non-overlapping occurrence.
   */
  function ReplaceAll(s: Bytes, pat: Bytes, rep: Bytes): Bytes
    requires |pat| > 0
    decreases |s|
  {
    if |s| < |pat| then s
    else if s[..|pat|] == pat then rep + ReplaceAll(s[|pat|..], pat, rep)
    else [s[0]] + ReplaceAll(s[1..], pat, rep)
  }

  /** Without an occurrence of the pattern, `str_replace` changes nothing. */
  lemma {:induction false} ReplaceAllAbsent(s: Bytes, pat: Bytes, rep: Bytes)
    requires |pat| > 0 && !Contains(s, pat)
    ensures ReplaceAll(s, pat, rep) == s
    decreases |s|
  {
    if |s| >= |pat| {
      ReplaceAllAbsent(s[1..], pat, rep);
      assert s == [s[0]] + s[1..];
    }
  }

  /** A prefix free of the pattern's first byte passes through unchanged. */
  lemma {:induction false} ReplaceAllSkip(x: Bytes, y: Bytes, pat: Bytes, rep: Bytes)
    requires |pat| > 0 && pat[0] !in x
    ensures ReplaceAll(x + y, pat, rep) == x + ReplaceAll(y, pat, rep)
    decreases |x|
  {
    if x == [] {
      assert x + y == y;
    } else {
      var s := x + y;
      assert s[1..] == x[1..] + y;
      ReplaceAllSkip(x[1..], y, pat, rep);
      if |s| < |pat| {
        assert ReplaceAll(y, pat, rep) == y;
      } else {
        assert s[..|pat|][0] == x[0] != pat[0];
        assert ReplaceAll(s, pat, rep) == [x[0]] + ReplaceAll(s[1..], pat, rep);
        assert x == [x[0]] + x[1..];
      }
    }
  }

  /** An occurrence at the front is replaced and scanning resumes after it. */
  lemma ReplaceAllAtFront(pat: Bytes, y: Bytes, rep: Bytes)
    requires |pat| > 0
    ensures ReplaceAll(pat + y, pat, rep) == rep + ReplaceAll(y, pat, rep)
  {
    assert (pat + y)[..|pat|] == pat;
    assert (pat + y)[|pat|..] == y;
  }

  /** A string shorter than the pattern does not contain it. */
  lemma {:induction false} ShortNeverContains(s: Bytes, p: Bytes)
    requires |s| < |p|
    ensures !Contains(s, p)
    decreases |s|
  {
    if s != [] {
      ShortNeverContains(s[1..], p);
    }
  }

  /** A string containing a pattern contains the pattern's first byte. */
  lemma {:induction false} ContainsFirstByte(s: Bytes, p: Bytes)
    requires |p| > 0 && Contains(s, p)
    ensures p[0] in s
    decreases |s|
  {
    if StartsWith(s, p) {
      assert s[0] == s[..|p|][0];
    } else {
      ContainsFirstByte(s[1..], p);
    }
  }

  /** With a one-byte pattern `str_replace` maps each byte independently. */
  lemma {:induction false} ReplaceByteAppend(a: Bytes, b: Bytes, c: Byte, rep: Bytes)
    ensures ReplaceAll(a + b, [c], rep) == ReplaceAll(a, [c], rep) + ReplaceAll(b, [c], rep)
    decreases |a|
  {
    if a == [] {
      assert a + b == b;
    } else {
      var s := a + b;
      assert s[1..] == a[1..] + b;
      assert s[..1] == a[..1] == [a[0]];
      ReplaceByteAppend(a[1..], b, c, rep);
      if a[0] == c {
        assert ReplaceAll(s, [c], rep) == rep + ReplaceAll(s[1..], [c], rep);
        assert ReplaceAll(a, [c], rep) == rep + ReplaceAll(a[1..], [c], rep);
      } else {
        assert ReplaceAll(s, [c], rep) == [a[0]] + ReplaceAll(s[1..], [c], rep);
        assert ReplaceAll(a, [c], rep) == [a[0]] + ReplaceAll(a[1..], [c], rep);
      }
    }
  }

  /** `implode($sep, $xs)`. */
  function Join(xs: seq<Bytes>, sep: Bytes): Bytes {
    if xs == [] then ""
    else if |xs| == 1 then xs[0]
    else xs[0] + sep + Join(xs[1..], sep)
  }

  /** What a `foreach` that appends only some results collects: the defined `f(x)`, in order. */
  function FilterMap<A, B>(f: A -> Option<B>, xs: seq<A>): seq<B> {
    if xs == [] then []
    else
      var y := f(xs[|xs| - 1]);
      FilterMap(f, xs[..|xs| - 1]) + (if y.Some? then [y.value] else [])
  }

  /** Filtering one more element appends its image, if any. */
  lemma FilterMapSnoc<A, B>(f: A -> Option<B>, xs: seq<A>, x: A)
    ensures FilterMap(f, xs + [x]) == FilterMap(f, xs) + (if f(x).Some? then [f(x).value] else [])
  {
    assert (xs + [x])[..|xs|] == xs;
  }

  lemma {:induction false} FilterMapMembers<A, B>(f: A -> Option<B>, xs: seq<A>, b: B)
    ensures b in FilterMap(f, xs) <==> exists i :: 0 <= i < |xs| && f(xs[i]) == Some(b)
    decreases |xs|
  {
    if xs != [] {
      var init := xs[..|xs| - 1];
      var y := f(xs[|xs| - 1]);
      FilterMapMembers(f, init, b);
      assert FilterMap(f, xs) == FilterMap(f, init) + (if y.Some? then [y.value] else []);
      if b in FilterMap(f, init) {
        var i :| 0 <= i < |init| && f(init[i]) == Some(b);
        assert xs[i] == init[i];
      }
      if exists i :: 0 <= i < |xs| && f(xs[i]) == Some(b) {
        var i :| 0 <= i < |xs| && f(xs[i]) == Some(b);
        if i < |init| {
          assert f(init[i]) == Some(b);
        }
      }
    }
  }

  /** Filtering a concatenation filters each part. */
  lemma {:induction false} FilterMapAppend<A, B>(f: A -> Option<B>, xs: seq<A>, ys: seq<A>)
    ensures FilterMap(f, xs + ys) == FilterMap(f, xs) + FilterMap(f, ys)
    decreases |ys|
  {
    if ys == [] {
      assert xs + ys == xs;
    } else {
      var init := ys[..|ys| - 1];
      assert xs + ys == (xs + init) + [ys[|ys| - 1]];
      FilterMapSnoc(f, xs + init, ys[|ys| - 1]);
      assert ys == init + [ys[|ys| - 1]];
      FilterMapSnoc(f, init, ys[|ys| - 1]);
      FilterMapAppend(f, xs, init);
    }
  }

  lemma {:induction false} FilterMapLength<A, B>(f: A -> Option<B>, xs: seq<A>)
    ensures |FilterMap(f, xs)| <= |xs|
    decreases |xs|
  {
    if xs != [] {
      FilterMapLength(f, xs[..|xs| - 1]);
    }
  }

  lemma {:induction false} FilterMapEmpty<A, B>(f: A -> Option<B>, xs: seq<A>)
    ensures FilterMap(f, xs) == [] <==> forall i :: 0 <= i < |xs| ==> f(xs[i]).None?
    decreases |xs|
  {
    if xs != [] {
      var init := xs[..|xs| - 1];
      FilterMapEmpty(f, init);
      assert forall i :: 0 <= i < |init| ==> init[i] == xs[i];
    }
  }

  predicate Distinct<T(==)>(xs: seq<T>) {
    forall i, j :: 0 <= i < j < |xs| ==> xs[i] != xs[j]
  }

  /** `array_values(array_unique($xs))`: keep the first occurrence of each. */
  function Unique<T(==)>(xs: seq<T>): seq<T> {
    if xs == [] then []
    else
      var u := Unique(xs[..|xs| - 1]);
      if xs[|xs| - 1] in u then u else u + [xs[|xs| - 1]]
  }

  /** `array_unique` keeps exactly the members, each once, and never lengthens. */
  lemma {:induction false} UniqueProperties<T(!new)>(xs: seq<T>)
    ensures forall x :: x in Unique(xs) <==> x in xs
    ensures Distinct(Unique(xs))
    ensures |Unique(xs)| <= |xs|
    decreases |xs|
  {
    if xs != [] {
      var init := xs[..|xs| - 1];
      UniqueProperties(init);
      assert xs == init + [xs[|xs| - 1]];
    }
  }

  /** A duplicate-free prefix survives `array_unique` unchanged. */
  lemma {:induction false} UniqueKeepsDistinctPrefix<T(!new)>(a: seq<T>, b: seq<T>)
    requires Distinct(a)
    ensures |Unique(a + b)| >= |a|
    ensures Unique(a + b)[..|a|] == a
    decreases |b|
  {
    if b == [] {
      assert a + b == a;
      UniqueOfDistinct(a);
    } else {
      var b' := b[..|b| - 1];
      assert (a + b)[..|a + b| - 1] == a + b';
      UniqueKeepsDistinctPrefix(a, b');
    }
  }

  lemma {:induction false} UniqueOfDistinct<T(!new)>(a: seq<T>)
    requires Distinct(a)
    ensures Unique(a) == a
    decreases |a|
  {
    if a != [] {
      var init := a[..|a| - 1];
      assert Distinct(init);
      UniqueOfDistinct(init);
      assert a[|a| - 1] !in init;
      assert a == init + [a[|a| - 1]];
    }
  }

  /** The first element of a non-empty list always survives `array_unique` first. */
  lemma UniqueHead<T(!new)>(xs: seq<T>)
    requires xs != []
    ensures Unique(xs) != [] && Unique(xs)[0] == xs[0]
  {
    UniqueKeepsDistinctPrefix([xs[0]], xs[1..]);
    assert [xs[0]] + xs[1..] == xs;
  }

  // ---------------------------------------------------------------------------
  // Regular expressions
  // ---------------------------------------------------------------------------

  predicate AllIn(s: Bytes, inClass: Byte -> bool) {
    forall i :: 0 <= i < |s| ==> inClass(s[i])
  }

  /**
   * `preg_match('/^[C]+$/', s) === 1` for a byte class C that excludes the
   * newline: without the D modifier PCRE's `$` also matches just before a
   * final newline, so one trailing "\n" is accepted as well.
   */
  predicate ClassPlusMatch(s: Bytes, inClass: Byte -> bool) {
    (|s| > 0 && AllIn(s, inClass))
    || (|s| > 1 && s[|s| - 1] == '\n' && AllIn(s[..|s| - 1], inClass))
  }
}
