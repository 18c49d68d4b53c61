/**
 * The string primitives the column codec is built from: Python's
 * `sep.join(xs)` and `s.split(sep)` for a one-character separator, and
 * PostgreSQL's `strpos(haystack, needle)`, each with an independent
 * characterisation proved about it.
 */
module Strings {

  /** Number of occurrences of the character `c` in `s`. */
  function Count(s: string, c: char): nat
  {
    if s == [] then 0 else (if s[0] == c then 1 else 0) + Count(s[1..], c)
  }

  /** `sep.join(xs)`: the elements of `xs`, with one `sep` between each two neighbours. */
  function Join(sep: char, xs: seq<string>): string
  {
    if |xs| == 0 then ""
    else if |xs| == 1 then xs[0]
    else xs[0] + [sep] + Join(sep, xs[1..])
  }

  /**
   * `s.split(sep)`: the maximal runs of `s` between separators, in order.
   * There is always at least one piece, one more than there are separators,
   * and no piece contains the separator.
   */
  function Split(s: string, sep: char): (r: seq<string>)
    ensures |r| == Count(s, sep) + 1
    ensures forall k :: 0 <= k < |r| ==> sep !in r[k]
  {
    if s == [] then [""]
    else if s[0] == sep then [""] + Split(s[1..], sep)
    else
      var rest := Split(s[1..], sep);
      [[s[0]] + rest[0]] + rest[1..]
  }

  /** `needle` occurs in `haystack` starting at the 0-based index `i`. */
  predicate OccursAt(haystack: string, needle: string, i: int)
  {
    0 <= i && i + |needle| <= |haystack| && haystack[i..i + |needle|] == needle
  }

  /** `needle` is a substring of `haystack`. */
  predicate Contains(haystack: string, needle: string)
  {
    exists i :: 0 <= i <= |haystack| && OccursAt(haystack, needle, i)
  }

  /**
   * `strpos(haystack, needle)`: the 1-based position of the first occurrence
   * of `needle` in `haystack`, or 0 when there is none.
   */
  function Strpos(haystack: string, needle: string): (p: nat)
    ensures p == 0 <==> !Contains(haystack, needle)
    ensures p > 0 ==> OccursAt(haystack, needle, p - 1)
    ensures p > 0 ==> forall j :: 0 <= j < p - 1 ==> !OccursAt(haystack, needle, j)
  {
    if |needle| > |haystack| then
      0
    else if haystack[..|needle|] == needle then
      assert OccursAt(haystack, needle, 0);
      1
    else
      var p := Strpos(haystack[1..], needle);
      StrposTail(haystack, needle, p);
      if p == 0 then 0 else p + 1
  }

  /** A first occurrence in `h[1..]` at 1-based `p` is a first occurrence in `h` at `p + 1`, when `h` does not start with `n`. */
  lemma StrposTail(h: string, n: string, p: nat)
    requires |n| <= |h| && h[..|n|] != n
    requires p == 0 <==> !Contains(h[1..], n)
    requires p > 0 ==> OccursAt(h[1..], n, p - 1)
    requires p > 0 ==> forall j :: 0 <= j < p - 1 ==> !OccursAt(h[1..], n, j)
    ensures p == 0 <==> !Contains(h, n)
    ensures p > 0 ==> OccursAt(h, n, p)
    ensures p > 0 ==> forall j :: 0 <= j < p ==> !OccursAt(h, n, j)
  {
    OccursAtTail(h, n);
    assert !OccursAt(h, n, 0);
    if Contains(h, n) {
      var i :| 0 <= i <= |h| && OccursAt(h, n, i);
      assert OccursAt(h[1..], n, i - 1);
    }
    if Contains(h[1..], n) {
      var i :| 0 <= i <= |h[1..]| && OccursAt(h[1..], n, i);
      assert OccursAt(h, n, i + 1);
    }
  }

  /** Occurrences in `h` past index 0 are exactly the occurrences in `h[1..]`, shifted by one. */
  lemma OccursAtTail(h: string, n: string)
    requires h != []
    ensures forall i :: 1 <= i ==> (OccursAt(h, n, i) <==> OccursAt(h[1..], n, i - 1))
  {
  }

  /** An occurrence in `t` is an occurrence in `p + t`, shifted by `|p|`. */
  lemma OccursAfterPrefix(p: string, t: string, n: string, i: int)
    requires OccursAt(t, n, i)
    ensures OccursAt(p + t, n, |p| + i)
  {
  }

  /** An occurrence in `p` is an occurrence in `p + t` at the same index. */
  lemma OccursBeforeSuffix(p: string, t: string, n: string, i: int)
    requires OccursAt(p, n, i)
    ensures OccursAt(p + t, n, i)
  {
  }

  /** Joining the pieces of a split gives back the string that was split. */
  lemma {:induction false} JoinSplit(s: string, sep: char)
    ensures Join(sep, Split(s, sep)) == s
  {
    if s == [] {
    } else {
      var rest := Split(s[1..], sep);
      JoinSplit(s[1..], sep);
      if s[0] == sep {
        assert Split(s, sep) == [""] + rest;
        assert ([""] + rest)[1..] == rest;
      } else {
        var r := Split(s, sep);
        assert r == [[s[0]] + rest[0]] + rest[1..];
        if |rest| == 1 {
          assert r == [[s[0]] + rest[0]];
        } else {
          assert r[1..] == rest[1..];
          assert Join(sep, rest) == rest[0] + [sep] + Join(sep, rest[1..]);
        }
      }
      assert s == [s[0]] + s[1..];
    }
  }

  /** Splitting `a + t` where `a` has no separator glues `a` onto the first piece of `t`. */
  lemma {:induction false} SplitPrefix(a: string, t: string, sep: char)
    requires sep !in a
    ensures Split(a + t, sep) == [a + Split(t, sep)[0]] + Split(t, sep)[1..]
  {
    if a == [] {
      var r := Split(t, sep);
      assert a + t == t && a + r[0] == r[0];
      assert r == [r[0]] + r[1..];
    } else {
      SplitPrefix(a[1..], t, sep);
      assert (a + t)[1..] == a[1..] + t;
      assert (a + t)[0] == a[0];
      assert [a[0]] + (a[1..] + Split(t, sep)[0]) == a + Split(t, sep)[0];
    }
  }

  /**
   * Splitting a join gives back the list exactly when the list is non-empty
   * and no element contains the separator.
   */
  lemma {:induction false} SplitJoin(xs: seq<string>, sep: char)
    ensures Split(Join(sep, xs), sep) == xs <==>
            |xs| > 0 && forall k :: 0 <= k < |xs| ==> sep !in xs[k]
  {
    if |xs| > 0 && forall k :: 0 <= k < |xs| ==> sep !in xs[k] {
      SplitJoinClean(xs, sep);
    }
  }

  lemma {:induction false} SplitJoinClean(xs: seq<string>, sep: char)
    requires |xs| > 0
    requires forall k :: 0 <= k < |xs| ==> sep !in xs[k]
    ensures Split(Join(sep, xs), sep) == xs
  {
    if |xs| == 1 {
      SplitPrefix(xs[0], "", sep);
      assert xs[0] + "" == xs[0];
    } else {
      var tail := Join(sep, xs[1..]);
      SplitJoinClean(xs[1..], sep);
      var rest := [sep] + tail;
      SplitPrefix(xs[0], rest, sep);
      assert Join(sep, xs) == xs[0] + rest;
      assert rest[0] == sep && rest[1..] == tail;
      assert Split(rest, sep) == [""] + xs[1..];
      assert xs[0] + "" == xs[0];
      assert [xs[0]] + xs[1..] == xs;
    }
  }

  /** Every element of a list is a substring of the list's join. */
  lemma {:induction false} JoinContainsElement(sep: char, xs: seq<string>, k: int)
    requires 0 <= k < |xs|
    ensures Contains(Join(sep, xs), xs[k])
  {
    var j := Join(sep, xs);
    if |xs| == 1 {
      assert OccursAt(j, xs[k], 0);
    } else {
      var head := xs[0] + [sep];
      var tail := Join(sep, xs[1..]);
      assert j == xs[0] + ([sep] + tail);
      if k == 0 {
        assert OccursAt(xs[0], xs[0], 0);
        OccursBeforeSuffix(xs[0], [sep] + tail, xs[0], 0);
      } else {
        JoinContainsElement(sep, xs[1..], k - 1);
        var i :| OccursAt(tail, xs[k], i);
        OccursAfterPrefix(head, tail, xs[k], i);
        assert j == head + tail;
      }
    }
  }
}
