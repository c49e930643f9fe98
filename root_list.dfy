/**
 * Splitting the `ENVOY_BNDL_ROOTS` setting into a list of root directories:
 * `[r.strip() for r in roots_str.split(sep) if r.strip()]`.
 *
 * `Split` follows `str.split` with a one-character separator, `Strip` follows
 * `str.strip()` with no argument, and `SplitRoots` is the list comprehension.
 */
module RootList {

  /** The characters for which `str.isspace()` holds, i.e. those `str.strip()` removes. */
  predicate IsSpace(c: char) {
    || c == ' ' || c == '\t' || c == '\n' || c == '\r'
    || c == '\U{0B}' || c == '\U{0C}'
    || ('\U{1C}' <= c <= '\U{1F}')
    || c == '\U{85}' || c == '\U{A0}' || c == '\U{1680}'
    || ('\U{2000}' <= c <= '\U{200A}')
    || c == '\U{2028}' || c == '\U{2029}' || c == '\U{202F}' || c == '\U{205F}' || c == '\U{3000}'
  }

  predicate AllSpace(s: string) {
    forall i :: 0 <= i < |s| ==> IsSpace(s[i])
  }

  /** A string with no whitespace at either end. */
  predicate IsStripped(s: string) {
    s == [] || (!IsSpace(s[0]) && !IsSpace(s[|s| - 1]))
  }

  /** `s` consists of whitespace, then `r` starting at index `lo`, then whitespace. */
  predicate StripsTo(s: string, lo: nat, r: string) {
    && lo + |r| <= |s|
    && s[lo..lo + |r|] == r
    && AllSpace(s[..lo])
    && AllSpace(s[lo + |r|..])
  }

  /** Removes leading whitespace. */
  function TrimLeft(s: string): string {
    if s != [] && IsSpace(s[0]) then TrimLeft(s[1..]) else s
  }

  /** Removes trailing whitespace. */
  function TrimRight(s: string): string {
    if s != [] && IsSpace(s[|s| - 1]) then TrimRight(s[..|s| - 1]) else s
  }

  /** `TrimLeft` leaves a suffix of `s` that does not start with whitespace; all it removed was whitespace. */
  lemma {:induction false} TrimLeftSpec(s: string)
    ensures |TrimLeft(s)| <= |s| && TrimLeft(s) == s[|s| - |TrimLeft(s)|..]
    ensures TrimLeft(s) == [] || !IsSpace(TrimLeft(s)[0])
    ensures AllSpace(s[..|s| - |TrimLeft(s)|])
  {
    if s != [] && IsSpace(s[0]) {
      var t := s[1..];
      TrimLeftSpec(t);
      var k := |t| - |TrimLeft(t)|;
      assert TrimLeft(s) == TrimLeft(t);
      assert t[k..] == s[k + 1..];
      assert s[..k + 1] == [s[0]] + t[..k];
    }
  }

  /** `TrimRight` leaves a prefix of `s` that does not end with whitespace; all it removed was whitespace. */
  lemma {:induction false} TrimRightSpec(s: string)
    ensures |TrimRight(s)| <= |s| && TrimRight(s) == s[..|TrimRight(s)|]
    ensures TrimRight(s) == [] || !IsSpace(TrimRight(s)[|TrimRight(s)| - 1])
    ensures AllSpace(s[|TrimRight(s)|..])
  {
    if s != [] && IsSpace(s[|s| - 1]) {
      var t := s[..|s| - 1];
      TrimRightSpec(t);
      var k := |TrimRight(t)|;
      assert TrimRight(s) == TrimRight(t);
      assert t[..k] == s[..k];
      assert s[k..] == t[k..] + [s[|s| - 1]];
    }
  }

  /** `str.strip()`: `s` without the whitespace at either end. */
  function Strip(s: string): string {
    TrimRight(TrimLeft(s))
  }

  /** What `Strip` leaves has no whitespace at either end and sits in `s` between two runs of whitespace. */
  lemma StripSpec(s: string)
    ensures IsStripped(Strip(s))
    ensures exists lo: nat :: StripsTo(s, lo, Strip(s))
    ensures forall c :: c !in s ==> c !in Strip(s)
  {
    var l := TrimLeft(s);
    var r := TrimRight(l);
    TrimLeftSpec(s);
    TrimRightSpec(l);
    assert s[|s| - |l|..][..|r|] == s[|s| - |l|..|s| - |l| + |r|];
    assert s[|s| - |l| + |r|..] == l[|r|..];
    assert StripsTo(s, |s| - |l|, r);
    forall c | c !in s ensures c !in r {
      InfixLacks(s, |s| - |l|, r, c);
    }
  }

  /** Joining with `sep`, the inverse of `Split`: `sep.join(parts)`. */
  function Join(parts: seq<string>, sep: char): string
    requires |parts| >= 1
  {
    if |parts| == 1 then parts[0] else parts[0] + [sep] + Join(parts[1..], sep)
  }

  /** `s.split(sep)`: the maximal separator-free segments of `s`, empty ones included. */
  function Split(s: string, sep: char): (parts: seq<string>)
    ensures |parts| >= 1
    ensures forall i :: 0 <= i < |parts| ==> sep !in parts[i]
    ensures Join(parts, sep) == s
  {
    if s == [] then [""]
    else
      var rest := Split(s[1..], sep);
      if s[0] == sep then
        [""] + rest
      else
        assert s == [s[0]] + s[1..];
        [[s[0]] + rest[0]] + rest[1..]
  }

  /** The comprehension's filter and map: the stripped segments that are not empty, in order. */
  function Clean(parts: seq<string>): seq<string> {
    if parts == [] then []
    else
      var head := Strip(parts[0]);
      (if head == [] then [] else [head]) + Clean(parts[1..])
  }

  /** `[r.strip() for r in roots_str.split(sep) if r.strip()]`. */
  function SplitRoots(rootsStr: string, sep: char): seq<string> {
    Clean(Split(rootsStr, sep))
  }

  /** Every root kept by `Clean` is non-empty, stripped, and free of a character no segment contains. */
  lemma {:induction false} CleanElements(parts: seq<string>, sep: char)
    requires forall i :: 0 <= i < |parts| ==> sep !in parts[i]
    ensures |Clean(parts)| <= |parts|
    ensures forall i :: 0 <= i < |Clean(parts)| ==>
              Clean(parts)[i] != [] && IsStripped(Clean(parts)[i]) && sep !in Clean(parts)[i]
  {
    if parts != [] {
      CleanElements(parts[1..], sep);
      var head := Strip(parts[0]);
      StripSpec(parts[0]);
      assert IsStripped(head) && sep !in head;
      var front, rest := if head == [] then [] else [head], Clean(parts[1..]);
      assert Clean(parts) == front + rest;
      forall i | 0 <= i < |front + rest|
        ensures (front + rest)[i] != [] && IsStripped((front + rest)[i]) && sep !in (front + rest)[i]
      {
        if i >= |front| {
          assert (front + rest)[i] == rest[i - |front|];
        }
      }
    }
  }

  /** Every root is non-empty, has no whitespace at either end and contains no separator. */
  lemma SplitRootsElements(rootsStr: string, sep: char)
    ensures forall i :: 0 <= i < |SplitRoots(rootsStr, sep)| ==>
              var root := SplitRoots(rootsStr, sep)[i];
              root != [] && IsStripped(root) && sep !in root
  {
    CleanElements(Split(rootsStr, sep), sep);
  }

  lemma InfixLacks(s: string, lo: nat, r: string, c: char)
    requires c !in s
    requires lo + |r| <= |s| && s[lo..lo + |r|] == r
    ensures c !in r
  {
    forall k | 0 <= k < |r| ensures r[k] != c {
      assert r[k] == s[lo + k];
    }
  }

  // ---------------------------------------------------------------------------
  // Strip: an independent characterisation
  // ---------------------------------------------------------------------------

  lemma {:induction false} TrimLeftSkipsSpace(a: string, t: string)
    requires AllSpace(a)
    requires t == [] || !IsSpace(t[0])
    ensures TrimLeft(a + t) == t
  {
    if a != [] {
      assert (a + t)[1..] == a[1..] + t;
      TrimLeftSkipsSpace(a[1..], t);
    }
  }

  lemma {:induction false} TrimRightSkipsSpace(t: string, b: string)
    requires AllSpace(b)
    requires t == [] || !IsSpace(t[|t| - 1])
    ensures TrimRight(t + b) == t
  {
    if b != [] {
      assert (t + b)[..|t + b| - 1] == t + b[..|b| - 1];
      TrimRightSkipsSpace(t, b[..|b| - 1]);
    } else {
      assert t + b == t;
    }
  }

  /** Whitespace, then a stripped string, then whitespace: `strip()` gives back exactly that string. */
  lemma StripUnique(a: string, r: string, b: string)
    requires AllSpace(a) && AllSpace(b) && IsStripped(r)
    ensures Strip(a + r + b) == r
  {
    if r == [] {
      assert a + r + b == a + b;
      assert AllSpace(a + b);
      TrimLeftSkipsSpace(a + b, []);
      assert a + b + [] == a + b;
    } else {
      assert a + r + b == a + (r + b);
      TrimLeftSkipsSpace(a, r + b);
      TrimRightSkipsSpace(r, b);
    }
  }

  // ---------------------------------------------------------------------------
  // Split and Join are inverse
  // ---------------------------------------------------------------------------

  lemma {:induction false} SplitPrefix(p: string, t: string, sep: char)
    requires sep !in p
    ensures Split(p + t, sep) == [p + Split(t, sep)[0]] + Split(t, sep)[1..]
  {
    if p == [] {
      assert p + t == t;
      assert p + Split(t, sep)[0] == Split(t, sep)[0];
      assert Split(t, sep) == [Split(t, sep)[0]] + Split(t, sep)[1..];
    } else {
      assert (p + t)[1..] == p[1..] + t;
      assert (p + t)[0] == p[0];
      SplitPrefix(p[1..], t, sep);
      assert [p[0]] + (p[1..] + Split(t, sep)[0]) == p + Split(t, sep)[0];
    }
  }

  /** Splitting a join of separator-free segments gives back the segments. */
  lemma {:induction false} SplitJoin(parts: seq<string>, sep: char)
    requires |parts| >= 1
    requires forall i :: 0 <= i < |parts| ==> sep !in parts[i]
    ensures Split(Join(parts, sep), sep) == parts
  {
    if |parts| == 1 {
      SplitPrefix(parts[0], [], sep);
      assert parts[0] + [] == parts[0];
    } else {
      var tail := Join(parts[1..], sep);
      SplitJoin(parts[1..], sep);
      assert parts[0] + [sep] + tail == parts[0] + ([sep] + tail);
      SplitPrefix(parts[0], [sep] + tail, sep);
      assert ([sep] + tail)[1..] == tail;
      assert Split([sep] + tail, sep) == [""] + parts[1..];
      assert parts[0] + "" == parts[0];
    }
  }

  /** Splitting at one separator occurrence splits the segment list there. */
  lemma {:induction false} SplitConcat(a: string, b: string, sep: char)
    ensures Split(a + [sep] + b, sep) == Split(a, sep) + Split(b, sep)
  {
    if a == [] {
      assert a + [sep] + b == [sep] + b;
      assert ([sep] + b)[1..] == b;
    } else {
      assert (a + [sep] + b)[1..] == a[1..] + [sep] + b;
      assert (a + [sep] + b)[0] == a[0];
      SplitConcat(a[1..], b, sep);
    }
  }

  // ---------------------------------------------------------------------------
  // SplitRoots: exactly the stripped non-empty segments, in order
  // ---------------------------------------------------------------------------

  lemma {:induction false} CleanConcat(p: seq<string>, q: seq<string>)
    ensures Clean(p + q) == Clean(p) + Clean(q)
  {
    if p != [] {
      assert (p + q)[1..] == p[1..] + q;
      assert (p + q)[0] == p[0];
      CleanConcat(p[1..], q);
    } else {
      assert p + q == q;
    }
  }

  /** The roots of a joined string are the stripped non-empty segments, in their order, duplicates kept. */
  lemma SplitRootsOfJoin(parts: seq<string>, sep: char)
    requires |parts| >= 1
    requires forall i :: 0 <= i < |parts| ==> sep !in parts[i]
    ensures SplitRoots(Join(parts, sep), sep) == Clean(parts)
  {
    SplitJoin(parts, sep);
  }

  /** Order is preserved across a separator: the roots of `a:b` are those of `a` followed by those of `b`. */
  lemma SplitRootsConcat(a: string, b: string, sep: char)
    ensures SplitRoots(a + [sep] + b, sep) == SplitRoots(a, sep) + SplitRoots(b, sep)
  {
    SplitConcat(a, b, sep);
    CleanConcat(Split(a, sep), Split(b, sep));
  }

  /** A separator-free string names at most one root: itself, stripped, unless it is blank. */
  lemma SplitRootsSegment(s: string, sep: char)
    requires sep !in s
    ensures SplitRoots(s, sep) == if Strip(s) == [] then [] else [Strip(s)]
  {
    SplitJoin([s], sep);
    assert Join([s], sep) == s;
    assert [s][1..] == [];
    assert Clean([s]) == (if Strip(s) == [] then [] else [Strip(s)]) + Clean([]);
  }

  /** A root that is already clean names exactly itself. */
  lemma {:induction false} CleanRootSegment(r: string, sep: char)
    requires r != [] && IsStripped(r) && sep !in r
    ensures SplitRoots(r, sep) == [r]
  {
    SplitRootsSegment(r, sep);
    assert r == [] + r + [];
    StripUnique([], r, []);
  }

  /** Roots keep their order and their duplicates: `r1:r2:r1` names `r1`, `r2`, `r1`. */
  lemma {:induction false} OrderAndDuplicatesKept(r1: string, r2: string, sep: char)
    requires r1 != [] && IsStripped(r1) && sep !in r1
    requires r2 != [] && IsStripped(r2) && sep !in r2
    ensures SplitRoots(r1 + [sep] + r2 + [sep] + r1, sep) == [r1, r2, r1]
  {
    CleanRootSegment(r1, sep);
    CleanRootSegment(r2, sep);
    SplitRootsConcat(r1 + [sep] + r2, r1, sep);
    SplitRootsConcat(r1, r2, sep);
  }

  /** A blank segment names no root: `a:  ` names the roots of `a`. */
  lemma {:induction false} BlankSegmentDropped(a: string, blank: string, sep: char)
    requires AllSpace(blank) && sep !in blank
    ensures SplitRoots(a + [sep] + blank, sep) == SplitRoots(a, sep)
  {
    SplitRootsConcat(a, blank, sep);
    SplitRootsSegment(blank, sep);
    assert blank == blank + [] + [];
    StripUnique(blank, [], []);
  }
}
