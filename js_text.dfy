/** The JavaScript built-ins the components rely on, stated exactly:
    `String.prototype.trim`, `split` on one character, the global `\r\n`
    replacement, `Array.prototype.indexOf`, `Array.prototype.slice` and
    `Math.ceil` of a quotient. */
module JsText {

  /** ECMAScript WhiteSpace and LineTerminator code points: what `trim` removes. */
  predicate IsJsSpace(c: char)
  {
    || c == '\t' || c == '\n' || c == '\U{000B}' || c == '\U{000C}' || c == '\r' || c == ' '
    || c == '\U{00A0}' || c == '\U{1680}' || ('\U{2000}' <= c <= '\U{200A}')
    || c == '\U{2028}' || c == '\U{2029}' || c == '\U{202F}' || c == '\U{205F}'
    || c == '\U{3000}' || c == '\U{FEFF}'
  }

  /** Every character of `s` is white space (so `s.trim() === ''`). */
  predicate IsBlank(s: string)
  {
    forall k :: 0 <= k < |s| ==> IsJsSpace(s[k])
  }

  function TrimStart(s: string): (r: string)
    ensures |r| <= |s| && r == s[|s| - |r|..]
    ensures IsBlank(s[..|s| - |r|])
    ensures r == [] || !IsJsSpace(r[0])
  {
    if s != [] && IsJsSpace(s[0]) then TrimStart(s[1..]) else s
  }

  function TrimEnd(s: string): (r: string)
    ensures |r| <= |s| && r == s[..|r|]
    ensures IsBlank(s[|r|..])
    ensures r == [] || !IsJsSpace(r[|r| - 1])
  {
    if s != [] && IsJsSpace(s[|s| - 1]) then TrimEnd(s[..|s| - 1]) else s
  }

  /** `s.trim()`: the longest middle part of `s` that neither starts nor ends with white space. */
  function Trim(s: string): string
  {
    TrimEnd(TrimStart(s))
  }

  /** `s.trim() === ''` exactly when every character of `s` is white space. */
  lemma TrimEmptyIffBlank(s: string)
    ensures Trim(s) == [] <==> IsBlank(s)
  {
    var t := TrimStart(s);
    if Trim(s) == [] {
      assert t == [];
      forall k | 0 <= k < |s| ensures IsJsSpace(s[k]) {
        assert s[k] == s[..|s|][k];
      }
    }
  }

  /** `s.split(sep)` for a one-character separator: the pieces between separators, left to
      right; always at least one piece. */
  function Split(s: string, sep: char): (parts: seq<string>)
    ensures |parts| >= 1
  {
    if s == [] then [""]
    else
      var init := Split(s[..|s| - 1], sep);
      var c := s[|s| - 1];
      if c == sep then init + [""]
      else init[..|init| - 1] + [init[|init| - 1] + [c]]
  }

  /** `parts.join(sep)`. */
  function Join(parts: seq<string>, sep: char): string
    requires |parts| >= 1
  {
    if |parts| == 1 then parts[0]
    else Join(parts[..|parts| - 1], sep) + [sep] + parts[|parts| - 1]
  }

  /** No piece holds the separator. */
  predicate NoSeparator(parts: seq<string>, sep: char)
  {
    forall k :: 0 <= k < |parts| ==> sep !in parts[k]
  }

  /** `split` is undone by `join`, and no piece holds the separator: together these
      determine the pieces uniquely. */
  lemma {:induction false} SplitJoin(s: string, sep: char)
    ensures Join(Split(s, sep), sep) == s
    ensures NoSeparator(Split(s, sep), sep)
  {
    if s != [] {
      var init, c := s[..|s| - 1], s[|s| - 1];
      assert s == init + [c];
      SplitJoin(init, sep);
      var p := Split(init, sep);
      var q := Split(s, sep);
      if c == sep {
        assert q == p + [""];
        assert q[..|q| - 1] == p;
      } else {
        assert q == p[..|p| - 1] + [p[|p| - 1] + [c]];
        assert q[|q| - 1] == p[|p| - 1] + [c];
        if |p| > 1 {
          assert q[..|q| - 1] == p[..|p| - 1];
        }
      }
    }
  }

  /** `s.replace(/\r\n/g, '\n')`. */
  function CrlfToLf(s: string): (r: string)
    ensures |r| <= |s|
    ensures '\r' !in s ==> r == s
  {
    if |s| >= 2 && s[0] == '\r' && s[1] == '\n' then "\n" + CrlfToLf(s[2..])
    else if s == [] then []
    else [s[0]] + CrlfToLf(s[1..])
  }

  /** `s.indexOf(x)`: the first index holding `x`, or -1. */
  function IndexOf<T(==)>(s: seq<T>, x: T): (r: int)
    ensures -1 <= r < |s|
    ensures r == -1 <==> x !in s
    ensures r >= 0 ==> s[r] == x && x !in s[..r]
  {
    if s == [] then -1
    else if s[0] == x then 0
    else
      var r := IndexOf(s[1..], x);
      assert s[1..][..if r >= 0 then r else 0] == s[1..1 + if r >= 0 then r else 0];
      if r == -1 then -1 else r + 1
  }

  /** How `slice` turns a relative index into a position in `[0, len]`. */
  function SliceBound(i: int, len: nat): (r: nat)
    ensures r <= len
    ensures 0 <= i ==> r == if i < len then i else len
  {
    if i < 0 then (if len + i < 0 then 0 else len + i) else if i < len then i else len
  }

  /** `s.slice(start, end)`. */
  function Slice<T>(s: seq<T>, start: int, end: int): (r: seq<T>)
    ensures |r| <= |s|
    ensures 0 <= start <= end ==> |r| <= end - start
    ensures 0 <= start <= end && end <= |s| ==> r == s[start..end]
    ensures 0 <= start && |s| <= start ==> r == []
  {
    var from, to := SliceBound(start, |s|), SliceBound(end, |s|);
    if from < to then s[from..to] else []
  }

  /** `Math.ceil(n / d)` for a non-negative count and a positive divisor: the least `r`
      with `n <= d * r`. */
  function CeilDiv(n: nat, d: nat): (r: nat)
    requires d > 0
    ensures n <= d * r
    ensures r > 0 ==> d * (r - 1) < n
  {
    (n + d - 1) / d
  }

  /** `xs` is `ys` with some elements left out, the rest in their order. */
  predicate IsSubsequence<T(==)>(xs: seq<T>, ys: seq<T>)
    decreases |ys|
  {
    if xs == [] then true
    else if ys == [] then false
    else if xs[0] == ys[0] then IsSubsequence(xs[1..], ys[1..])
    else IsSubsequence(xs, ys[1..])
  }

  lemma {:induction false} SubsequenceOfItself<T>(xs: seq<T>)
    ensures IsSubsequence(xs, xs)
    decreases |xs|
  {
    if xs != [] {
      SubsequenceOfItself(xs[1..]);
    }
  }

  /** `xs.filter(p)`: the elements satisfying `p`, in their order. */
  function Filter<T(==,!new)>(xs: seq<T>, p: T -> bool): (r: seq<T>)
    ensures forall x :: x in r <==> x in xs && p(x)
    ensures IsSubsequence(r, xs)
    ensures |r| <= |xs|
    ensures (forall k :: 0 <= k < |xs| ==> p(xs[k])) ==> r == xs
  {
    if xs == [] then []
    else if p(xs[0]) then [xs[0]] + Filter(xs[1..], p)
    else Filter(xs[1..], p)
  }

  /** Filtering a sequence with one more element at the end. */
  lemma {:induction false} FilterAppend<T(!new)>(xs: seq<T>, x: T, p: T -> bool)
    ensures Filter(xs + [x], p) == Filter(xs, p) + (if p(x) then [x] else [])
  {
    if xs != [] {
      assert (xs + [x])[1..] == xs[1..] + [x];
      FilterAppend(xs[1..], x, p);
    } else {
      assert (xs + [x])[1..] == [];
    }
  }
}
