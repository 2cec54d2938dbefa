/**
 * The sequence operations the handler and the search strategies use:
 * `strip` (of str and of bytes), Python's whitespace set, the `in` test
 * on strings and bytes, and `any` over a sequence.
 */
module Strings {

  /**
   * `str.isspace()` for one character: the characters that `str.strip()`
   * with no argument removes (bidirectional class WS, B or S, or general
   * category Zs, in Python's Unicode tables).
   */
  predicate IsSpace(c: char): (r: bool)
    ensures r ==> c <= '\U{3000}'
    ensures ('0' <= c <= '9' || 'A' <= c <= 'Z' || 'a' <= c <= 'z' || c == '\0') ==> !r
  {
    || ('\t' <= c <= '\r')                  // TAB, LF, VT, FF, CR
    || ('\U{1C}' <= c <= ' ')               // the four information separators and SPACE
    || c == '\U{85}' || c == '\U{A0}' || c == '\U{1680}'
    || ('\U{2000}' <= c <= '\U{200A}')
    || c == '\U{2028}' || c == '\U{2029}' || c == '\U{202F}' || c == '\U{205F}' || c == '\U{3000}'
  }

  /** The first index from `i` on whose element is kept (the left scan of `strip`). */
  function SkipDropped<T>(s: seq<T>, drop: T -> bool, i: nat): (r: nat)
    requires i <= |s|
    ensures i <= r <= |s|
    ensures forall k :: i <= k < r ==> drop(s[k])
    ensures r < |s| ==> !drop(s[r])
    decreases |s| - i
  {
    if i < |s| && drop(s[i]) then SkipDropped(s, drop, i + 1) else i
  }

  /** Scanning back from `j` to no further than `i`: the index just past the last kept element. */
  function BackOverDropped<T>(s: seq<T>, drop: T -> bool, i: nat, j: nat): (r: nat)
    requires i <= j <= |s|
    ensures i <= r <= j
    ensures forall k :: r <= k < j ==> drop(s[k])
    ensures r > i ==> !drop(s[r - 1])
    decreases j
  {
    if j > i && drop(s[j - 1]) then BackOverDropped(s, drop, i, j - 1) else j
  }

  /** Every element of `s` before `i` and from `j` on satisfies `drop`. */
  predicate DroppedOutside<T>(s: seq<T>, drop: T -> bool, i: int, j: int) {
    && 0 <= i <= j <= |s|
    && (forall k :: 0 <= k < i ==> drop(s[k]))
    && (forall k :: j <= k < |s| ==> drop(s[k]))
  }

  /**
   * `s.strip(chars)`: the slice of `s` left after removing every leading
   * and every trailing element that satisfies `drop`.
   */
  function Trim<T>(s: seq<T>, drop: T -> bool): (r: seq<T>)
    ensures |r| <= |s|
    ensures r != [] ==> !drop(r[0]) && !drop(r[|r| - 1])
  {
    var i := SkipDropped(s, drop, 0);
    var j := BackOverDropped(s, drop, i, |s|);
    s[i..j]
  }

  /** `Trim` keeps one slice of its input and drops only elements around it. */
  lemma TrimIsSlice<T>(s: seq<T>, drop: T -> bool)
    ensures exists i, j :: DroppedOutside(s, drop, i, j) && Trim(s, drop) == s[i..j]
  {
    var i := SkipDropped(s, drop, 0);
    var j := BackOverDropped(s, drop, i, |s|);
    if i == |s| {
      assert DroppedOutside(s, drop, i, i) && Trim(s, drop) == s[i..i];
    } else {
      assert DroppedOutside(s, drop, i, j);
    }
  }

  /** `str.strip()` with no argument. */
  function Strip(s: string): (r: string)
    ensures |r| <= |s|
    ensures r != [] ==> !IsSpace(r[0]) && !IsSpace(r[|r| - 1])
  {
    Trim(s, IsSpace)
  }

  /** `needle` occurs in `hay` starting at index `i`. */
  predicate OccursAt<T(==)>(needle: seq<T>, hay: seq<T>, i: int) {
    0 <= i <= |hay| - |needle| && hay[i..i + |needle|] == needle
  }

  /** `needle in hay` for strings and for byte strings: a contiguous occurrence. */
  predicate IsInfix<T(==)>(needle: seq<T>, hay: seq<T>) {
    exists i :: 0 <= i <= |hay| - |needle| && OccursAt(needle, hay, i)
  }

  /** `any(p(x) for x in xs)`. */
  function Any<T>(xs: seq<T>, p: T -> bool): (r: bool)
    ensures r <==> exists i :: 0 <= i < |xs| && p(xs[i])
    decreases |xs|
  {
    xs != [] && (p(xs[0]) || Any(xs[1..], p))
  }

  /**
   * The result of `Trim` is determined by its contract: any slice whose end
   * elements are kept and whose surroundings are all dropped is `Trim(s, drop)`.
   */
  lemma TrimUnique<T>(s: seq<T>, drop: T -> bool, i: nat, j: nat)
    requires DroppedOutside(s, drop, i, j)
    requires i < j ==> !drop(s[i]) && !drop(s[j - 1])
    requires i == j ==> forall k :: 0 <= k < |s| ==> drop(s[k])
    ensures Trim(s, drop) == s[i..j]
  {
    var r := Trim(s, drop);
    TrimIsSlice(s, drop);
    var i', j' :| DroppedOutside(s, drop, i', j') && r == s[i'..j'];
    if i < j {
      assert i' == i;
      assert j' == j;
    }
  }

  /** Trimming twice trims nothing more. */
  lemma TrimIdempotent<T>(s: seq<T>, drop: T -> bool)
    ensures Trim(Trim(s, drop), drop) == Trim(s, drop)
  {
    var r := Trim(s, drop);
    TrimUnique(r, drop, 0, |r|);
  }

  /** A sequence whose end elements are kept is its own trim. */
  lemma TrimKeeps<T>(s: seq<T>, drop: T -> bool)
    requires s != [] ==> !drop(s[0]) && !drop(s[|s| - 1])
    ensures Trim(s, drop) == s
  {
    TrimUnique(s, drop, 0, |s|);
  }

  /** One more dropped element at the end does not change the trim. */
  lemma TrimAppendDropped<T>(s: seq<T>, x: T, drop: T -> bool)
    requires drop(x)
    ensures Trim(s + [x], drop) == Trim(s, drop)
  {
    var r := Trim(s, drop);
    TrimIsSlice(s, drop);
    var i, j :| DroppedOutside(s, drop, i, j) && r == s[i..j];
    var t := s + [x];
    assert DroppedOutside(t, drop, i, j) by {
      forall k | j <= k < |t| ensures drop(t[k]) {
        if k < |s| { assert t[k] == s[k]; }
      }
      forall k | 0 <= k < i ensures drop(t[k]) {
        assert t[k] == s[k];
      }
    }
    assert t[i..j] == r;
    if i == j {
      forall k | 0 <= k < |t| ensures drop(t[k]) {
        if k < |s| { assert t[k] == s[k]; }
      }
    }
    TrimUnique(t, drop, i, j);
  }

  /** What `Trim` keeps is a contiguous piece of the input. */
  lemma TrimIsInfix<T>(s: seq<T>, drop: T -> bool)
    ensures IsInfix(Trim(s, drop), s)
  {
    var r := Trim(s, drop);
    TrimIsSlice(s, drop);
    var i, j :| DroppedOutside(s, drop, i, j) && r == s[i..j];
    assert OccursAt(r, s, i);
  }

  /** An occurrence inside an occurrence is an occurrence. */
  lemma InfixTransitive<T>(a: seq<T>, b: seq<T>, c: seq<T>)
    requires IsInfix(a, b) && IsInfix(b, c)
    ensures IsInfix(a, c)
  {
    var i :| 0 <= i <= |b| - |a| && OccursAt(a, b, i);
    var j :| 0 <= j <= |c| - |b| && OccursAt(b, c, j);
    forall k | 0 <= k < |a| ensures c[j + i + k] == a[k] {
      assert a[k] == b[i + k];
      assert b[i + k] == c[j + i + k];
    }
    assert c[j + i..j + i + |a|] == a;
    assert OccursAt(a, c, j + i);
  }

  /** A piece of one part of a concatenation is a piece of the whole. */
  lemma InfixOfConcat<T>(a: seq<T>, pre: seq<T>, b: seq<T>, post: seq<T>)
    requires IsInfix(a, b)
    ensures IsInfix(a, pre + b + post)
  {
    var i :| 0 <= i <= |b| - |a| && OccursAt(a, b, i);
    var whole := pre + b + post;
    forall k | 0 <= k < |a| ensures whole[|pre| + i + k] == a[k] {
      assert a[k] == b[i + k];
    }
    assert whole[|pre| + i..|pre| + i + |a|] == a;
    assert OccursAt(a, whole, |pre| + i);
  }
}
