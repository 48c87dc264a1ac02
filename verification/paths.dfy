/**
 * POSIX path handling as Node's `path` module performs it, over strings:
 * `normalize`, `join`, `basename` and `extname`.
 *
 * A path is split at every '/' into segments; normalising folds the segments
 * left to right over a stack (empty and "." segments vanish, ".." pops the
 * last ordinary segment, or is kept at the front of a relative path) and
 * renders the stack back with single separators.
 */
module Paths {
  import opened Wrappers
  import opened Strings

  predicate NoSep(s: string) {
    '/' !in s
  }

  /** A segment that names an entry: not empty, not "." or "..", no separator. */
  predicate Plain(seg: string) {
    seg != "" && seg != "." && seg != ".." && NoSep(seg)
  }

  predicate IsAbsolute(s: string) {
    |s| > 0 && s[0] == '/'
  }

  /** The pieces of `s` between separators; n separators give n + 1 pieces. */
  function Split(s: string): (r: seq<string>)
    ensures |r| >= 1
    ensures forall i | 0 <= i < |r| :: NoSep(r[i])
    decreases |s|
  {
    if |s| == 0 then [""]
    else
      var rest := Split(s[1..]);
      if s[0] == '/' then [""] + rest
      else [[s[0]] + rest[0]] + rest[1..]
  }

  /** The segments written out with one separator between neighbours. */
  function JoinSep(segs: seq<string>): string
    requires |segs| >= 1
  {
    if |segs| == 1 then segs[0] else segs[0] + "/" + JoinSep(segs[1..])
  }

  /** One segment of the fold `normalize` performs. */
  function Step(abs: bool, stack: seq<string>, seg: string): seq<string> {
    if seg == "" || seg == "." then stack
    else if seg == ".." then
      if |stack| > 0 && stack[|stack| - 1] != ".." then stack[..|stack| - 1]
      else if abs then stack
      else stack + [".."]
    else stack + [seg]
  }

  function Resolve(abs: bool, stack: seq<string>, segs: seq<string>): seq<string>
    decreases |segs|
  {
    if |segs| == 0 then stack else Resolve(abs, Step(abs, stack, segs[0]), segs[1..])
  }

  /**
   * The shape of a resolved segment list: every segment plain, except a
   * leading run of ".." in a relative path.
   */
  predicate Resolved(abs: bool, segs: seq<string>) {
    forall i | 0 <= i < |segs| ::
      Plain(segs[i]) || (segs[i] == ".." && !abs && forall j | 0 <= j < i :: segs[j] == "..")
  }

  function Render(abs: bool, segs: seq<string>): string {
    if abs then "/" + (if |segs| == 0 then "" else JoinSep(segs))
    else if |segs| == 0 then "." else JoinSep(segs)
  }

  /** The resolved segments of `s`. */
  function Segments(s: string): seq<string> {
    Resolve(IsAbsolute(s), [], Split(s))
  }

  /** `path.normalize`, except that a trailing separator is not kept. */
  function Normalize(s: string): string {
    Render(IsAbsolute(s), Segments(s))
  }

  function NonEmpty(parts: seq<string>): (r: seq<string>)
    ensures forall i | 0 <= i < |r| :: r[i] != ""
  {
    if |parts| == 0 then []
    else (if parts[0] == "" then [] else [parts[0]]) + NonEmpty(parts[1..])
  }

  /** `path.join`: the non-empty parts joined by separators, then normalised; "." if none. */
  function Join(parts: seq<string>): string {
    var kept := NonEmpty(parts);
    if |kept| == 0 then "." else Normalize(JoinSep(kept))
  }

  // ---------------------------------------------------------------------------
  // Splitting and joining with separators

  lemma {:induction false} SplitNoSep(x: string)
    requires NoSep(x)
    ensures Split(x) == [x]
    decreases |x|
  {
    if |x| > 0 {
      SplitNoSep(x[1..]);
      assert [x[0]] + x[1..] == x;
    }
  }

  /** Splitting distributes over a separator. */
  lemma {:induction false} SplitConcat(a: string, b: string)
    ensures Split(a + "/" + b) == Split(a) + Split(b)
    decreases |a|
  {
    var s := a + "/" + b;
    if |a| == 0 {
      assert s[1..] == b;
    } else {
      assert s[1..] == a[1..] + "/" + b;
      SplitConcat(a[1..], b);
    }
  }

  lemma {:induction false} SplitJoinSep(segs: seq<string>)
    requires |segs| >= 1
    requires forall i | 0 <= i < |segs| :: NoSep(segs[i])
    ensures Split(JoinSep(segs)) == segs
    decreases |segs|
  {
    if |segs| == 1 {
      SplitNoSep(segs[0]);
    } else {
      SplitJoinSep(segs[1..]);
      SplitConcat(segs[0], JoinSep(segs[1..]));
      SplitNoSep(segs[0]);
    }
  }

  lemma {:induction false} JoinSepFirst(segs: seq<string>)
    requires |segs| >= 1 && |segs[0]| > 0
    ensures |JoinSep(segs)| > 0 && JoinSep(segs)[0] == segs[0][0]
    decreases |segs|
  {
  }

  // ---------------------------------------------------------------------------
  // The resolution fold

  lemma {:induction false} ResolveAppend(abs: bool, stack: seq<string>, xs: seq<string>, ys: seq<string>)
    ensures Resolve(abs, stack, xs + ys) == Resolve(abs, Resolve(abs, stack, xs), ys)
    decreases |xs|
  {
    if |xs| == 0 {
      assert xs + ys == ys;
    } else {
      assert (xs + ys)[1..] == xs[1..] + ys;
      ResolveAppend(abs, Step(abs, stack, xs[0]), xs[1..], ys);
    }
  }

  lemma StepKeepsResolved(abs: bool, stack: seq<string>, seg: string)
    requires Resolved(abs, stack) && NoSep(seg)
    ensures Resolved(abs, Step(abs, stack, seg))
  {
    var r := Step(abs, stack, seg);
    if seg == ".." && !(|stack| > 0 && stack[|stack| - 1] != "..") && !abs {
      forall j | 0 <= j < |stack|
        ensures stack[j] == ".."
      {
        assert stack[|stack| - 1] == "..";
      }
    }
  }

  lemma {:induction false} ResolveKeepsResolved(abs: bool, stack: seq<string>, segs: seq<string>)
    requires Resolved(abs, stack)
    requires forall i | 0 <= i < |segs| :: NoSep(segs[i])
    ensures Resolved(abs, Resolve(abs, stack, segs))
    decreases |segs|
  {
    if |segs| > 0 {
      StepKeepsResolved(abs, stack, segs[0]);
      ResolveKeepsResolved(abs, Step(abs, stack, segs[0]), segs[1..]);
    }
  }

  lemma SegmentsResolved(s: string)
    ensures Resolved(IsAbsolute(s), Segments(s))
  {
    ResolveKeepsResolved(IsAbsolute(s), [], Split(s));
  }

  /** Folding an already resolved list onto its own prefix rebuilds it. */
  lemma {:induction false} ResolveFixesResolved(abs: bool, segs: seq<string>, k: nat)
    requires Resolved(abs, segs) && k <= |segs|
    ensures Resolve(abs, segs[..k], segs[k..]) == segs
    decreases |segs| - k
  {
    if k < |segs| {
      var pre := segs[..k];
      if segs[k] == ".." {
        assert forall j | 0 <= j < k :: pre[j] == "..";
      }
      assert Step(abs, pre, segs[k]) == segs[..k + 1];
      assert segs[k..][1..] == segs[k + 1..];
      ResolveFixesResolved(abs, segs, k + 1);
    } else {
      assert segs[..k] == segs;
    }
  }

  // ---------------------------------------------------------------------------
  // Normalisation

  /** A resolved list is a proper segment list: no empty segment, no separator. */
  lemma ResolvedSegments(abs: bool, segs: seq<string>)
    requires Resolved(abs, segs)
    ensures forall i | 0 <= i < |segs| :: NoSep(segs[i]) && segs[i] != ""
    ensures Resolve(abs, [], segs) == segs
    ensures |segs| > 0 ==> Split(JoinSep(segs)) == segs
    ensures |segs| > 0 ==> |JoinSep(segs)| > 0 && JoinSep(segs)[0] != '/'
  {
    if |segs| > 0 {
      JoinSepFirst(segs);
      SplitJoinSep(segs);
    }
    ResolveFixesResolved(abs, segs, 0);
    assert segs[..0] == [] && segs[0..] == segs;
  }

  lemma RenderRoundTripAbsolute(segs: seq<string>)
    requires Resolved(true, segs)
    ensures IsAbsolute(Render(true, segs))
    ensures Segments(Render(true, segs)) == segs
  {
    var r := Render(true, segs);
    if |segs| == 0 {
      assert r == "/" && r[1..] == "";
      assert Split(r) == ["", ""];
      assert Resolve(true, [], ["", ""]) == Resolve(true, [], [""]) == Resolve(true, [], []);
    } else {
      ResolvedSegments(true, segs);
      var body := JoinSep(segs);
      assert r == "" + "/" + body;
      SplitConcat("", body);
      assert Split(r) == [""] + segs;
      assert Resolve(true, [], [""] + segs) == Resolve(true, [], segs);
    }
  }

  lemma RenderRoundTripRelative(segs: seq<string>)
    requires Resolved(false, segs)
    ensures !IsAbsolute(Render(false, segs))
    ensures Segments(Render(false, segs)) == segs
  {
    ResolvedSegments(false, segs);
    if |segs| == 0 {
      SplitNoSep(".");
      assert Resolve(false, [], ["."]) == Resolve(false, [], []);
    }
  }

  /** Rendering a resolved list and reading it back gives the list again. */
  lemma RenderRoundTrip(abs: bool, segs: seq<string>)
    requires Resolved(abs, segs)
    ensures IsAbsolute(Render(abs, segs)) == abs
    ensures Segments(Render(abs, segs)) == segs
  {
    if abs {
      RenderRoundTripAbsolute(segs);
    } else {
      RenderRoundTripRelative(segs);
    }
  }

  lemma NormalizeSegments(s: string)
    ensures IsAbsolute(Normalize(s)) == IsAbsolute(s)
    ensures Segments(Normalize(s)) == Segments(s)
    ensures Normalize(s) != ""
  {
    SegmentsResolved(s);
    RenderRoundTrip(IsAbsolute(s), Segments(s));
  }

  /** Normalising twice is normalising once. */
  lemma NormalizeIdempotent(s: string)
    ensures Normalize(Normalize(s)) == Normalize(s)
  {
    NormalizeSegments(s);
  }

  /** A prefix may be normalised before more segments are appended to it. */
  lemma NormalizePrefix(x: string, y: string)
    requires x != ""
    ensures Normalize(Normalize(x) + "/" + y) == Normalize(x + "/" + y)
  {
    NormalizeSegments(x);
    var nx := Normalize(x);
    var abs := IsAbsolute(x);
    assert IsAbsolute(nx + "/" + y) == abs && IsAbsolute(x + "/" + y) == abs;
    SplitConcat(nx, y);
    SplitConcat(x, y);
    ResolveAppend(abs, [], Split(nx), Split(y));
    ResolveAppend(abs, [], Split(x), Split(y));
  }

  // ---------------------------------------------------------------------------
  // Joining

  lemma JoinTwo(a: string, b: string)
    requires b != ""
    ensures Join([a, b]) == Normalize(if a == "" then b else a + "/" + b)
  {
    assert [a, b][1..] == [b];
    assert [b][1..] == [];
    assert NonEmpty([b]) == [b];
    assert NonEmpty([a, b]) == (if a == "" then [b] else [a, b]);
    assert JoinSep([a, b]) == a + "/" + JoinSep([b]);
  }

  lemma {:induction false} NonEmptyKeepsAll(parts: seq<string>)
    requires forall i | 0 <= i < |parts| :: parts[i] != ""
    ensures NonEmpty(parts) == parts
    decreases |parts|
  {
    if |parts| > 0 {
      NonEmptyKeepsAll(parts[1..]);
      assert [parts[0]] + parts[1..] == parts;
    }
  }

  lemma {:induction false} JoinSepSnoc(xs: seq<string>, y: string)
    requires |xs| >= 1
    ensures JoinSep(xs + [y]) == JoinSep(xs) + "/" + y
    decreases |xs|
  {
    if |xs| > 1 {
      assert (xs + [y])[1..] == xs[1..] + [y];
      JoinSepSnoc(xs[1..], y);
    } else {
      assert xs + [y] == [xs[0], y];
      assert [xs[0], y][1..] == [y];
    }
  }

  lemma JoinThree(a: string, b: string, c: string)
    requires a != "" && b != "" && c != ""
    ensures Join([a, b, c]) == Normalize(a + "/" + b + "/" + c)
  {
    NonEmptyKeepsAll([a, b, c]);
    assert [a, b, c] == [a] + [b] + [c];
    assert [a] + [b] == [a, b];
    JoinSepSnoc([a], b);
    JoinSepSnoc([a, b], c);
  }

  lemma JoinFour(a: string, b: string, c: string, d: string)
    requires a != "" && b != "" && c != "" && d != ""
    ensures Join([a, b, c, d]) == Normalize(a + "/" + b + "/" + c + "/" + d)
  {
    NonEmptyKeepsAll([a, b, c, d]);
    assert [a, b, c, d] == [a, b, c] + [d];
    assert [a, b, c] == [a, b] + [c];
    assert [a, b] == [a] + [b];
    JoinSepSnoc([a], b);
    JoinSepSnoc([a, b], c);
    JoinSepSnoc([a, b, c], d);
  }

  /** A join is always normalised. */
  lemma JoinIsNormal(parts: seq<string>)
    ensures Join(parts) != ""
    ensures Normalize(Join(parts)) == Join(parts)
  {
    var kept := NonEmpty(parts);
    if |kept| == 0 {
      SplitNoSep(".");
      assert Segments(".") == [];
    } else {
      NormalizeSegments(JoinSep(kept));
      NormalizeIdempotent(JoinSep(kept));
    }
  }

  /**
   * Joining a directory with an entry name appends exactly that name to the
   * directory's resolved segments.
   */
  lemma JoinChild(d: string, a: string)
    requires Plain(a)
    ensures IsAbsolute(Join([d, a])) == IsAbsolute(d)
    ensures Segments(Join([d, a])) == Segments(d) + [a]
  {
    JoinTwo(d, a);
    SplitNoSep(a);
    if d == "" {
      assert a[0] in a;
      assert !IsAbsolute(a);
      NormalizeSegments(a);
      assert Segments(a) == Resolve(false, [], [a]) == Resolve(false, [a], []);
      assert Segments(d) == Resolve(false, [], [""]) == [];
    } else {
      var abs := IsAbsolute(d);
      assert IsAbsolute(d + "/" + a) == abs;
      NormalizeSegments(d + "/" + a);
      SplitConcat(d, a);
      ResolveAppend(abs, [], Split(d), [a]);
    }
  }

  /** Distinct entry names in one directory give distinct joined paths. */
  lemma JoinChildInjective(d: string, a: string, b: string)
    requires Plain(a) && Plain(b)
    requires Join([d, a]) == Join([d, b])
    ensures a == b
  {
    JoinChild(d, a);
    JoinChild(d, b);
    var sa := Segments(d) + [a];
    assert sa[|sa| - 1] == a;
  }

  /** Going up from a joined entry returns to the (normalised) directory. */
  lemma ParentOfChild(d: string, a: string)
    requires Plain(a)
    ensures Join([Join([d, a]), ".."]) == Normalize(d)
  {
    var c := Join([d, a]);
    JoinIsNormal([d, a]);
    JoinChild(d, a);
    JoinTwo(c, "..");
    SplitNoSep("..");
    SplitConcat(c, "..");
    var abs := IsAbsolute(d);
    assert IsAbsolute(c + "/" + "..") == abs;
    ResolveAppend(abs, [], Split(c), [".."]);
    assert Segments(c + "/" + "..") == Segments(d);
  }

  // ---------------------------------------------------------------------------
  // basename / extname

  function DropTrailingSeps(s: string): (r: string)
    ensures |r| <= |s|
  {
    if |s| > 0 && s[|s| - 1] == '/' then DropTrailingSeps(s[..|s| - 1]) else s
  }

  /** `path.basename`: what follows the last separator once trailing separators are dropped. */
  function Base(s: string): (b: string)
    ensures NoSep(b)
  {
    var t := DropTrailingSeps(s);
    match LastIndexOf(t, '/')
    case None => t
    case Some(k) => t[k + 1..]
  }

  /** The index of the last `c` in `s`, if any. */
  function LastIndexOf(s: string, c: char): (r: Option<nat>)
    ensures r.None? <==> c !in s
    ensures r.Some? ==> r.value < |s| && s[r.value] == c && c !in s[r.value + 1..]
  {
    if |s| == 0 then None
    else if s[|s| - 1] == c then Some(|s| - 1)
    else
      var r := LastIndexOf(s[..|s| - 1], c);
      if r.Some? then
        assert s[r.value + 1..] == s[..|s| - 1][r.value + 1..] + [s[|s| - 1]];
        r
      else
        assert s == s[..|s| - 1] + [s[|s| - 1]];
        r
  }

  /**
   * `path.extname`: from the last '.' of the base name to its end, or empty
   * when there is no dot, the only dot leads the name, or the name is "..".
   */
  function ExtName(s: string): string {
    var b := Base(s);
    var k := LastIndexOf(b, '.');
    if k.None? || k.value == 0 || b == ".." then "" else b[k.value..]
  }

  /** The base name of a name without separators is the name itself. */
  lemma BaseOfEntry(a: string)
    requires NoSep(a)
    ensures Base(a) == a
  {
    if |a| > 0 {
      assert a[|a| - 1] != '/' by {
        assert a[|a| - 1] in a;
      }
    }
  }
}
