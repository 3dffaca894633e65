/**
 * The handful of JavaScript string built-ins the blog's pipeline relies on,
 * written out over `seq<char>`: the `\s` character class and `trim`, the
 * truthiness of optional string fields, `startsWith`/`endsWith`, `split` and
 * `join` with a string separator, and the small global replacements.
 */
module Strings {

  datatype Option<T> = None | Some(value: T)

  /** What `.` in a JavaScript regular expression refuses, and where `^`/`$` anchor under the `m` flag. */
  predicate IsLineTerminator(c: char) {
    c == '\n' || c == '\r' || c == '\U{2028}' || c == '\U{2029}'
  }

  /** The characters matched by `\s` and removed by `String.prototype.trim`. */
  predicate IsSpace(c: char) {
    IsLineTerminator(c) || c == '\t' || c == '\U{B}' || c == '\U{C}' || c == ' '
    || c == '\U{A0}' || c == '\U{1680}' || ('\U{2000}' <= c <= '\U{200A}')
    || c == '\U{202F}' || c == '\U{205F}' || c == '\U{3000}' || c == '\U{FEFF}'
  }

  predicate NoTerminator(s: string) {
    forall k :: 0 <= k < |s| ==> !IsLineTerminator(s[k])
  }

  predicate NoSpace(s: string) {
    forall k :: 0 <= k < |s| ==> !IsSpace(s[k])
  }

  predicate AllSpace(s: string) {
    forall k :: 0 <= k < |s| ==> IsSpace(s[k])
  }

  /** An optional string field is truthy when it is present and not empty. */
  predicate Truthy(o: Option<string>) {
    o.Some? && o.value != ""
  }

  /** `o || fallback` for an optional string field. */
  function Or(o: Option<string>, fallback: string): (r: string)
    ensures Truthy(o) ==> r == o.value && r != ""
    ensures !Truthy(o) ==> r == fallback
  {
    if Truthy(o) then o.value else fallback
  }

  predicate StartsWith(s: string, p: string) {
    |p| <= |s| && s[..|p|] == p
  }

  predicate EndsWith(s: string, p: string) {
    |p| <= |s| && s[|s| - |p|..] == p
  }

  /** `s` with its leading whitespace removed. */
  function TrimStart(s: string): (r: string)
    ensures |r| <= |s|
    ensures r == [] || !IsSpace(r[0])
    ensures AllSpace(s[..|s| - |r|])
  {
    if s != [] && IsSpace(s[0]) then TrimStart(s[1..]) else s
  }

  /** What `TrimStart` keeps is a suffix of its input. */
  lemma {:induction false} TrimStartSuffix(s: string)
    ensures TrimStart(s) == s[|s| - |TrimStart(s)|..]
  {
    if s != [] && IsSpace(s[0]) {
      TrimStartSuffix(s[1..]);
    }
  }

  /** `s` with its trailing whitespace removed. */
  function TrimEnd(s: string): (r: string)
    ensures |r| <= |s| && r == s[..|r|]
    ensures r == [] || !IsSpace(r[|r| - 1])
    ensures AllSpace(s[|r|..])
  {
    if s != [] && IsSpace(s[|s| - 1]) then TrimEnd(s[..|s| - 1]) else s
  }

  /** `String.prototype.trim`: the string between the whitespace margins. */
  function Trim(s: string): (r: string)
    ensures |r| <= |s|
    ensures r == [] || (!IsSpace(r[0]) && !IsSpace(r[|r| - 1]))
  {
    TrimEnd(TrimStart(s))
  }

  /** What `trim` keeps is a slice of the input, what it drops is whitespace, and what it keeps has no whitespace at either end. */
  lemma TrimSlice(s: string)
    ensures var r := Trim(s);
      exists i :: 0 <= i <= i + |r| <= |s| && s[i..i + |r|] == r && AllSpace(s[..i]) && AllSpace(s[i + |r|..])
    ensures Trim(s) == [] || (!IsSpace(Trim(s)[0]) && !IsSpace(Trim(s)[|Trim(s)| - 1]))
  {
    var t := TrimStart(s);
    var r := TrimEnd(t);
    var i := |s| - |t|;
    TrimStartSuffix(s);
    assert s[i..i + |r|] == r;
    assert s[i + |r|..] == t[|r|..];
    if r != [] {
      assert r[0] == t[0];
    }
  }

  /** `trim` is idempotent, and it leaves alone a string that has no whitespace at either end. */
  lemma TrimFixpoint(s: string)
    requires s == [] || (!IsSpace(s[0]) && !IsSpace(s[|s| - 1]))
    ensures Trim(s) == s
  {
  }

  lemma TrimIdempotent(s: string)
    ensures Trim(Trim(s)) == Trim(s)
  {
    TrimSlice(s);
    TrimFixpoint(Trim(s));
  }

  /** A string of whitespace trims to nothing. */
  lemma TrimAllSpace(s: string)
    requires AllSpace(s)
    ensures Trim(s) == ""
  {
    TrimSlice(s);
  }

  /** `sep` occurs in `s` at position `k`. */
  predicate OccursAt(s: string, k: int, sep: string) {
    0 <= k && k + |sep| <= |s| && s[k..k + |sep|] == sep
  }

  /** `sep` does not occur anywhere in `s`. */
  predicate Free(s: string, sep: string) {
    forall k :: 0 <= k < |s| ==> !OccursAt(s, k, sep)
  }

  /** The first position at or after `from` at which `sep` occurs in `s`, if any. */
  function IndexFrom(s: string, sep: string, from: nat): (r: Option<nat>)
    requires sep != []
    ensures r.Some? ==> from <= r.value && OccursAt(s, r.value, sep)
    ensures r.Some? ==> forall k :: from <= k < r.value ==> !OccursAt(s, k, sep)
    ensures r.None? ==> forall k :: from <= k ==> !OccursAt(s, k, sep)
    decreases |s| - from
  {
    if from + |sep| > |s| then None
    else if OccursAt(s, from, sep) then Some(from)
    else IndexFrom(s, sep, from + 1)
  }

  /** `s.split(sep)` for a non-empty string separator: the pieces between non-overlapping occurrences, left to right. */
  function Split(s: string, sep: string): (r: seq<string>)
    requires sep != []
    ensures |r| >= 1
    decreases |s|
  {
    match IndexFrom(s, sep, 0)
    case None => [s]
    case Some(i) => [s[..i]] + Split(s[i + |sep|..], sep)
  }

  /** `xs.join(sep)`. */
  function Join(xs: seq<string>, sep: string): (r: string)
    ensures xs == [] ==> r == ""
    ensures |xs| == 1 ==> r == xs[0]
  {
    if xs == [] then ""
    else if |xs| == 1 then xs[0]
    else xs[0] + sep + Join(xs[1..], sep)
  }

  /** Joining empty strings with a whitespace separator gives only whitespace. */
  lemma {:induction false} JoinBlank(xs: seq<string>, sep: string)
    requires forall i :: 0 <= i < |xs| ==> xs[i] == ""
    requires AllSpace(sep)
    ensures AllSpace(Join(xs, sep))
  {
    if |xs| > 1 {
      JoinBlank(xs[1..], sep);
      assert Join(xs, sep) == sep + Join(xs[1..], sep);
    }
  }

  /** Joining the pieces of a split gives back the string. */
  lemma {:induction false} JoinSplit(s: string, sep: string)
    requires sep != []
    ensures Join(Split(s, sep), sep) == s
    decreases |s|
  {
    match IndexFrom(s, sep, 0)
    case None =>
    case Some(i) =>
      var rest := s[i + |sep|..];
      JoinSplit(rest, sep);
      assert s == s[..i] + s[i..i + |sep|] + rest;
  }

  /** An occurrence inside a prefix of `s` is an occurrence in `s`. */
  lemma OccursInPrefix(s: string, i: nat, k: int, sep: string)
    requires i <= |s| && OccursAt(s[..i], k, sep)
    ensures OccursAt(s, k, sep)
  {
    assert s[..i][k..k + |sep|] == s[k..k + |sep|];
  }

  /** No piece of a split contains the separator. */
  lemma {:induction false} SplitPiecesFree(s: string, sep: string)
    requires sep != []
    ensures forall j :: 0 <= j < |Split(s, sep)| ==> Free(Split(s, sep)[j], sep)
    decreases |s|
  {
    match IndexFrom(s, sep, 0)
    case None =>
    case Some(i) =>
      SplitPiecesFree(s[i + |sep|..], sep);
      forall k | 0 <= k < i
        ensures !OccursAt(s[..i], k, sep)
      {
        if OccursAt(s[..i], k, sep) {
          OccursInPrefix(s, i, k, sep);
        }
      }
  }

  /** A piece followed by the separator holds no earlier occurrence of the separator. */
  predicate Separable(x: string, sep: string) {
    forall k :: 0 <= k < |x| ==> !OccursAt(x + sep, k, sep)
  }

  /** In `x + sep + rest`, a separable `x` puts the first separator right after itself. */
  lemma FirstSeparator(x: string, sep: string, rest: string)
    requires sep != [] && Separable(x, sep)
    ensures IndexFrom(x + sep + rest, sep, 0) == Some(|x|)
  {
    var s := x + sep + rest;
    var n := |x|;
    assert s[..n + |sep|] == x + sep;
    forall k | 0 <= k < n
      ensures !OccursAt(s, k, sep)
    {
      if OccursAt(s, k, sep) {
        OccursInPrefix(s, n + |sep|, k, sep);
        assert OccursAt(s[..n + |sep|], k, sep) by {
          assert s[..n + |sep|][k..k + |sep|] == s[k..k + |sep|];
        }
      }
    }
    assert OccursAt(s, n, sep) by {
      assert s[n..n + |sep|] == sep;
    }
    IndexFromFinds(s, sep, 0, n);
  }

  /** A search from `from` finds `n` when `sep` occurs at `n` and nowhere between. */
  lemma {:induction false} IndexFromFinds(s: string, sep: string, from: nat, n: nat)
    requires sep != [] && from <= n && OccursAt(s, n, sep)
    requires forall k :: from <= k < n ==> !OccursAt(s, k, sep)
    ensures IndexFrom(s, sep, from) == Some(n)
    decreases n - from
  {
    if from < n {
      IndexFromFinds(s, sep, from + 1, n);
    }
  }

  /** A separable first piece comes off a split on its own. */
  lemma SplitCons(x: string, sep: string, rest: string)
    requires sep != [] && Separable(x, sep)
    ensures Split(x + sep + rest, sep) == [x] + Split(rest, sep)
  {
    var s := x + sep + rest;
    FirstSeparator(x, sep, rest);
    assert s[|x| + |sep|..] == rest;
    assert s[..|x|] == x;
  }

  /** Splitting a join gives back the pieces, when no piece contains the separator or lets one straddle its end. */
  lemma {:induction false} SplitJoin(xs: seq<string>, sep: string)
    requires sep != [] && xs != []
    requires forall j :: 0 <= j < |xs| - 1 ==> Separable(xs[j], sep)
    requires Free(xs[|xs| - 1], sep)
    ensures Split(Join(xs, sep), sep) == xs
  {
    if |xs| == 1 {
      assert IndexFrom(xs[0], sep, 0).None?;
    } else {
      var ys := xs[1..];
      SplitJoin(ys, sep);
      SplitCons(xs[0], sep, Join(ys, sep));
      assert xs == [xs[0]] + ys;
    }
  }

  /** Replaces every `from` with `to`, as `s.replace(/x/g, 'y')` does for a one-character pattern. */
  function ReplaceChar(s: string, from: char, to: char): (r: string)
    ensures |r| == |s|
    ensures forall k :: 0 <= k < |s| ==> r[k] == (if s[k] == from then to else s[k])
  {
    if s == [] then "" else [if s[0] == from then to else s[0]] + ReplaceChar(s[1..], from, to)
  }

  /** Replaces every `from` with the string `to`. */
  function ReplaceCharBy(s: string, from: char, to: string): (r: string)
    requires from !in to
    ensures from !in r
    ensures from !in s ==> r == s
  {
    if s == [] then "" else (if s[0] == from then to else [s[0]]) + ReplaceCharBy(s[1..], from, to)
  }

  /**
   * A single character is replaced by `to` exactly when it is `from`, and the
   * replacement distributes over concatenation: together these say that every
   * `from` becomes `to` and every other character is copied, in order.
   */
  lemma ReplaceCharByOne(c: char, from: char, to: string)
    requires from !in to
    ensures ReplaceCharBy([c], from, to) == if c == from then to else [c]
  {
    assert [c][1..] == [];
  }

  lemma {:induction false} ReplaceCharByAppend(a: string, b: string, from: char, to: string)
    requires from !in to
    ensures ReplaceCharBy(a + b, from, to) == ReplaceCharBy(a, from, to) + ReplaceCharBy(b, from, to)
    decreases |a|
  {
    if a == [] {
      assert a + b == b;
    } else {
      ReplaceCharByAppend(a[1..], b, from, to);
      ReplaceCharByCons(a, b, from, to);
    }
  }

  lemma Assoc<T>(a: seq<T>, b: seq<T>, c: seq<T>)
    ensures a + (b + c) == (a + b) + c
  {
  }

  /** The step of `ReplaceCharByAppend` at the first character of `a`. */
  lemma {:induction false} ReplaceCharByCons(a: string, b: string, from: char, to: string)
    requires from !in to && a != []
    requires ReplaceCharBy(a[1..] + b, from, to) == ReplaceCharBy(a[1..], from, to) + ReplaceCharBy(b, from, to)
    ensures ReplaceCharBy(a + b, from, to) == ReplaceCharBy(a, from, to) + ReplaceCharBy(b, from, to)
  {
    var head := if a[0] == from then to else [a[0]];
    var x, y := ReplaceCharBy(a[1..], from, to), ReplaceCharBy(b, from, to);
    calc {
      ReplaceCharBy(a + b, from, to);
      { assert (a + b)[0] == a[0] && (a + b)[1..] == a[1..] + b; }
      head + ReplaceCharBy(a[1..] + b, from, to);
      head + (x + y);
      { Assoc(head, x, y); }
      (head + x) + y;
    }
  }

  /** `s.split('/').pop()`: what follows the last `/`, or all of `s` when it has none. */
  function LastSegment(s: string): (r: string)
    ensures '/' !in r
    ensures |r| <= |s|
  {
    if s == [] then ""
    else if s[|s| - 1] == '/' then ""
    else LastSegment(s[..|s| - 1]) + [s[|s| - 1]]
  }

  /** The last segment is what follows the last '/', or the whole string when there is none. */
  lemma {:induction false} LastSegmentSuffix(s: string)
    ensures EndsWith(s, LastSegment(s))
    ensures |LastSegment(s)| == |s| || s[|s| - |LastSegment(s)| - 1] == '/'
    decreases |s|
  {
    if s != [] && s[|s| - 1] != '/' {
      var s' := s[..|s| - 1];
      LastSegmentSuffix(s');
      var r' := LastSegment(s');
      assert s[|s| - |r'| - 1..] == s'[|s'| - |r'|..] + [s[|s| - 1]];
      assert |r'| < |s'| ==> s[|s| - |r'| - 2] == s'[|s'| - |r'| - 1];
    }
  }

  /** The last segment of a path that ends in `/` followed by a slash-free name is that name. */
  lemma {:induction false} LastSegmentOfSuffix(x: string, y: string)
    requires x != [] && x[|x| - 1] == '/' && '/' !in y
    ensures LastSegment(x + y) == y
    decreases |y|
  {
    var s := x + y;
    if y == [] {
      assert s == x;
    } else {
      var y' := y[..|y| - 1];
      assert s[..|s| - 1] == x + y';
      assert y[|y| - 1] in y;
      assert '/' !in y' by {
        forall k | 0 <= k < |y'|
          ensures y'[k] != '/'
        {
          assert y'[k] == y[k] && y[k] in y;
        }
      }
      LastSegmentOfSuffix(x, y');
      assert y == y' + [y[|y| - 1]];
    }
  }

  /** A string without '/' is its own last segment. */
  lemma LastSegmentOfName(y: string)
    requires '/' !in y
    ensures LastSegment(y) == y
  {
    LastSegmentSuffix(y);
    var r := LastSegment(y);
    assert y[|y| - |r|..] == y[0..] == y;
  }

  predicate IsUpper(c: char) { 'A' <= c <= 'Z' }

  /** `toLowerCase` on the ASCII letters. */
  function Lower(s: string): (r: string)
    ensures |r| == |s|
    ensures forall k :: 0 <= k < |r| ==> !IsUpper(r[k])
    ensures forall k :: 0 <= k < |s| ==> !IsUpper(s[k]) ==> r[k] == s[k]
    ensures forall k :: 0 <= k < |s| ==> IsUpper(s[k]) ==> r[k] == (s[k] as int + 32) as char
    ensures forall k :: 0 <= k < |s| ==> IsSpace(r[k]) == IsSpace(s[k])
  {
    if s == [] then ""
    else [if IsUpper(s[0]) then (s[0] as int + 32) as char else s[0]] + Lower(s[1..])
  }

  /** Length of the leading run of whitespace. */
  function SpaceRun(s: string): (n: nat)
    ensures 0 < n <= |s| || (n == 0 && (s == [] || !IsSpace(s[0])))
    ensures AllSpace(s[..n]) && (n == |s| || !IsSpace(s[n]))
  {
    if s != [] && IsSpace(s[0]) then 1 + SpaceRun(s[1..]) else 0
  }

  /** `s.replace(/\s+/g, '-')`: every maximal run of whitespace becomes one hyphen. */
  function DashSpaces(s: string): (r: string)
    ensures NoSpace(r)
    ensures |r| <= |s|
    ensures r == [] <==> s == []
    ensures NoSpace(s) ==> r == s
    decreases |s|
  {
    if s == [] then ""
    else if IsSpace(s[0]) then "-" + DashSpaces(s[SpaceRun(s)..])
    else [s[0]] + DashSpaces(s[1..])
  }

  /** The whitespace run of `x + y` runs on into `y` only when all of `x` is whitespace. */
  lemma {:induction false} SpaceRunAppend(x: string, y: string)
    ensures SpaceRun(x + y) == if SpaceRun(x) < |x| then SpaceRun(x) else |x| + SpaceRun(y)
    decreases |x|
  {
    if x == [] {
      assert x + y == y;
    } else {
      assert (x + y)[0] == x[0];
      assert (x + y)[1..] == x[1..] + y;
      if IsSpace(x[0]) {
        SpaceRunAppend(x[1..], y);
      }
    }
  }

  /**
   * A maximal run of whitespace at the front becomes exactly one '-', and a
   * character that is not whitespace is copied: with `DashSpaces("") == ""`
   * these fix `DashSpaces` on every string, run by run, in order.
   */
  lemma {:induction false} DashSpacesRun(w: string, rest: string)
    requires w != [] && AllSpace(w)
    requires rest == [] || !IsSpace(rest[0])
    ensures DashSpaces(w + rest) == "-" + DashSpaces(rest)
  {
    assert SpaceRun(w) == |w| by {
      assert w[..SpaceRun(w)] == w[..SpaceRun(w)];
    }
    assert SpaceRun(rest) == 0;
    SpaceRunAppend(w, rest);
    assert (w + rest)[0] == w[0];
    assert (w + rest)[|w|..] == rest;
  }

  lemma {:induction false} DashSpacesChar(c: char, rest: string)
    requires !IsSpace(c)
    ensures DashSpaces([c] + rest) == [c] + DashSpaces(rest)
  {
    assert ([c] + rest)[0] == c;
    assert ([c] + rest)[1..] == rest;
  }

  /** A non-empty run of whitespace on its own becomes a single '-'. */
  lemma {:induction false} DashSpacesOfSpace(w: string)
    requires w != [] && AllSpace(w)
    ensures DashSpaces(w) == "-"
  {
    DashSpacesRun(w, []);
    assert w + [] == w;
  }

  /** A word without whitespace at the front is copied as it is. */
  lemma {:induction false} DashSpacesWord(word: string, rest: string)
    requires NoSpace(word)
    ensures DashSpaces(word + rest) == word + DashSpaces(rest)
    decreases |word|
  {
    if word == [] {
      assert word + rest == rest;
    } else {
      var w := word[1..];
      assert word + rest == [word[0]] + (w + rest);
      DashSpacesChar(word[0], w + rest);
      DashSpacesWord(w, rest);
      Assoc([word[0]], w, DashSpaces(rest));
      assert [word[0]] + w == word;
    }
  }
}
