/** The Python `str` operations that utils.py relies on, over `seq<char>`:
    `startswith`, `endswith`, the substring test `p in s`, `lower()`,
    `replace(p, r)` and `split(sep)`. */
module Strings {

  /** `s.startswith(p)` */
  predicate StartsWith(s: string, p: string) {
    |p| <= |s| && s[..|p|] == p
  }

  /** `s.endswith(p)` */
  predicate EndsWith(s: string, p: string) {
    |p| <= |s| && s[|s| - |p|..] == p
  }

  /** `p in s`, scanning `s` from the left. */
  predicate Contains(s: string, p: string)
    decreases |s|
  {
    StartsWith(s, p) || (s != [] && Contains(s[1..], p))
  }

  /** `p` sits in `s` at index `i`. */
  ghost predicate OccursAt(s: string, p: string, i: int) {
    0 <= i && i + |p| <= |s| && s[i..i + |p|] == p
  }

  /** An occurrence at a known index makes `Contains` true. */
  lemma {:induction false} OccursContains(s: string, p: string, i: int)
    requires OccursAt(s, p, i)
    ensures Contains(s, p)
    decreases i
  {
    if i > 0 {
      assert s[1..][i - 1..i - 1 + |p|] == s[i..i + |p|];
      OccursContains(s[1..], p, i - 1);
    }
  }

  /** `Contains` finds an index where the pattern occurs. */
  lemma {:induction false} ContainsOccurs(s: string, p: string) returns (i: int)
    requires Contains(s, p)
    ensures OccursAt(s, p, i)
    decreases |s|
  {
    if StartsWith(s, p) {
      i := 0;
    } else {
      var j := ContainsOccurs(s[1..], p);
      assert s[1..][j..j + |p|] == s[j + 1..j + 1 + |p|];
      i := j + 1;
    }
  }

  /** `Contains` agrees with the window definition of a substring. */
  lemma ContainsIffOccurs(s: string, p: string)
    ensures Contains(s, p) <==> exists i :: OccursAt(s, p, i)
  {
    if Contains(s, p) {
      var i := ContainsOccurs(s, p);
    }
    forall i | OccursAt(s, p, i) ensures Contains(s, p) {
      OccursContains(s, p, i);
    }
  }

  /** A string contains each of its suffixes. */
  lemma ContainsSuffix(a: string, b: string)
    ensures Contains(a + b, b)
  {
    assert (a + b)[|a|..|a| + |b|] == b;
    assert OccursAt(a + b, b, |a|);
    ContainsIffOccurs(a + b, b);
  }

  /** Appending text on either side keeps an occurrence. */
  lemma ContainsExtend(a: string, s: string, b: string, p: string)
    requires Contains(s, p)
    ensures Contains(a + s + b, p)
  {
    ContainsIffOccurs(s, p);
    var i :| OccursAt(s, p, i);
    assert (a + s + b)[|a| + i..|a| + i + |p|] == s[i..i + |p|];
    assert OccursAt(a + s + b, p, |a| + i);
    ContainsIffOccurs(a + s + b, p);
  }

  /** Every character of an occurring pattern occurs in the string. */
  lemma ContainsChar(s: string, p: string, j: int)
    requires Contains(s, p) && 0 <= j < |p|
    ensures p[j] in s
  {
    var i := ContainsOccurs(s, p);
    assert s[i..i + |p|][j] == s[i + j];
  }

  /** Python's `lower()` on one character (ASCII letters only). */
  function LowerChar(c: char): char {
    if 'A' <= c <= 'Z' then (c as int + 32) as char else c
  }

  /** `s.lower()`, restricted to ASCII case folding. */
  function Lower(s: string): (r: string)
    ensures |r| == |s|
    ensures forall i :: 0 <= i < |s| ==> r[i] == LowerChar(s[i])
    decreases |s|
  {
    if s == [] then [] else [LowerChar(s[0])] + Lower(s[1..])
  }

  /** Lowering commutes with concatenation. */
  lemma LowerConcat(a: string, b: string)
    ensures Lower(a + b) == Lower(a) + Lower(b)
  {
  }

  /** A string without upper-case letters is its own lower-case form. */
  lemma LowerFixed(s: string)
    requires forall i :: 0 <= i < |s| ==> !('A' <= s[i] <= 'Z')
    ensures Lower(s) == s
  {
  }

  /** Lowering twice is lowering once. */
  lemma LowerIdempotent(s: string)
    ensures Lower(Lower(s)) == Lower(s)
  {
  }

  /** `s.replace(p, r)`: every non-overlapping occurrence of `p`, found from
      the left, replaced by `r`. */
  function ReplaceAll(s: string, p: string, r: string): (t: string)
    requires p != ""
    ensures !Contains(s, p) ==> t == s
    decreases |s|
  {
    if s == [] then []
    else if StartsWith(s, p) then r + ReplaceAll(s[|p|..], p, r)
    else [s[0]] + ReplaceAll(s[1..], p, r)
  }

  /** Replacing a pattern by itself changes nothing. */
  lemma {:induction false} ReplaceBySelf(s: string, p: string)
    requires p != ""
    ensures ReplaceAll(s, p, p) == s
    decreases |s|
  {
    if s == [] {
    } else if StartsWith(s, p) {
      ReplaceBySelf(s[|p|..], p);
      assert s == p + s[|p|..];
    } else {
      ReplaceBySelf(s[1..], p);
      assert s == [s[0]] + s[1..];
    }
  }

  /** The first occurrence is replaced and the scan goes on after it: when
      `p` first occurs in `a + p` at `|a|`, the text before it is kept and
      what follows is replaced in turn. */
  lemma {:induction false} ReplaceFirst(a: string, p: string, b: string, r: string)
    requires p != ""
    requires forall i :: 0 <= i < |a| ==> !OccursAt(a + p, p, i)
    ensures ReplaceAll(a + p + b, p, r) == a + r + ReplaceAll(b, p, r)
    decreases |a|
  {
    var s := a + p + b;
    if a == [] {
      assert s == p + b;
      ReplaceAtStart(p, b, r);
    } else {
      var t := a[1..];
      var rest := t + p + b;
      calc {
        ReplaceAll(s, p, r);
        { assert s == [a[0]] + rest; }
        ReplaceAll([a[0]] + rest, p, r);
        { NoOccurrenceShift(a, p, b); ReplaceStep(a[0], rest, p, r); }
        [a[0]] + ReplaceAll(rest, p, r);
        { NoOccurrenceShift(a, p, b); ReplaceFirst(t, p, b, r); }
        [a[0]] + (t + r + ReplaceAll(b, p, r));
        { assert a == [a[0]] + t; }
        a + r + ReplaceAll(b, p, r);
      }
    }
  }

  /** `p` at the start is replaced and the scan resumes after it. */
  lemma ReplaceAtStart(p: string, b: string, r: string)
    requires p != ""
    ensures ReplaceAll(p + b, p, r) == r + ReplaceAll(b, p, r)
  {
    assert (p + b)[..|p|] == p;
    assert (p + b)[|p|..] == b;
  }

  /** A first character that does not start `p` is kept. */
  lemma ReplaceStep(c: char, rest: string, p: string, r: string)
    requires p != "" && !StartsWith([c] + rest, p)
    ensures ReplaceAll([c] + rest, p, r) == [c] + ReplaceAll(rest, p, r)
  {
    assert ([c] + rest)[1..] == rest;
  }

  /** The step of `ReplaceFirst`: the text does not start with `p`, and no
      early occurrence appears once its first character is dropped. */
  lemma NoOccurrenceShift(a: string, p: string, b: string)
    requires p != "" && a != []
    requires forall i :: 0 <= i < |a| ==> !OccursAt(a + p, p, i)
    ensures !StartsWith([a[0]] + (a[1..] + p + b), p)
    ensures forall i :: 0 <= i < |a| - 1 ==> !OccursAt(a[1..] + p, p, i)
  {
    var t := a + p;
    assert !OccursAt(t, p, 0);
    assert (t + b)[..|p|] == t[..|p|];
    assert [a[0]] + (a[1..] + p + b) == t + b;
    var u := a[1..] + p;
    assert t == [a[0]] + u;
    forall i | 0 <= i < |a| - 1 ensures !OccursAt(u, p, i) {
      assert !OccursAt(t, p, i + 1);
      assert t[i + 1..i + 1 + |p|] == u[i..i + |p|] by {
        forall k | i + 1 <= k < i + 1 + |p| ensures t[k] == u[k - 1] {
        }
      }
    }
  }

  /** A string without the first character of `p` does not contain `p`. */
  lemma MissingHead(s: string, p: string)
    requires p != "" && p[0] !in s
    ensures !Contains(s, p)
  {
    if Contains(s, p) {
      ContainsChar(s, p, 0);
    }
  }

  /** `s.split(sep)`: the fields between the occurrences of `sep`. */
  function Split(s: string, sep: char): (fields: seq<string>)
    ensures |fields| >= 1
    ensures forall i :: 0 <= i < |fields| ==> sep !in fields[i]
    ensures Join(fields, sep) == s
    decreases |s|
  {
    if s == [] then [""]
    else
      var rest := Split(s[1..], sep);
      if s[0] == sep then
        assert ([""] + rest)[1..] == rest;
        [""] + rest
      else
        var fields := [[s[0]] + rest[0]] + rest[1..];
        assert fields[1..] == rest[1..];
        assert |rest| >= 2 ==> Join(rest, sep) == rest[0] + [sep] + Join(rest[1..], sep);
        fields
  }

  /** `sep.join(fields)` */
  function Join(fields: seq<string>, sep: char): string
    decreases |fields|
  {
    if fields == [] then ""
    else if |fields| == 1 then fields[0]
    else fields[0] + [sep] + Join(fields[1..], sep)
  }

  /** Splitting a joined list gives the list back when no field holds the
      separator. */
  lemma {:induction false} SplitJoin(fields: seq<string>, sep: char)
    requires |fields| >= 1
    requires forall i :: 0 <= i < |fields| ==> sep !in fields[i]
    ensures Split(Join(fields, sep), sep) == fields
    decreases |fields|
  {
    if |fields| == 1 {
      SplitNoSeparator(fields[0], sep);
    } else {
      SplitJoin(fields[1..], sep);
      SplitAtFirst(fields[0], sep, Join(fields[1..], sep));
      assert [fields[0]] + fields[1..] == fields;
    }
  }

  /** A string without the separator is a single field. */
  lemma {:induction false} SplitNoSeparator(s: string, sep: char)
    requires sep !in s
    ensures Split(s, sep) == [s]
    decreases |s|
  {
    if s != [] {
      SplitNoSeparator(s[1..], sep);
      assert [s[0]] + s[1..] == s;
    }
  }

  /** The first field ends at the first separator. */
  lemma {:induction false} SplitAtFirst(a: string, sep: char, t: string)
    requires sep !in a
    ensures Split(a + [sep] + t, sep) == [a] + Split(t, sep)
    decreases |a|
  {
    var s := a + [sep] + t;
    if a == [] {
      assert s[1..] == t;
    } else {
      assert s[1..] == a[1..] + [sep] + t;
      SplitAtFirst(a[1..], sep, t);
      assert [s[0]] + a[1..] == a;
    }
  }
}
