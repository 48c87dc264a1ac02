/**
 * The output-folder watcher: the image-extension filter, the initial scan
 * (filter, stat, sort by modification time, record, report), the raw change
 * notifications that collect pending paths behind one shared debounce timer,
 * the timer firing, and stop.
 *
 * The filesystem is an input: `start` receives whether the directory exists,
 * its listing (`None` when reading it fails) and the modification times of
 * the paths whose stat succeeds; a timer firing receives the set of paths
 * that exist at that moment. The debounce timer is a flag: any image event
 * (re)arms it, and firing is an explicit step.
 */
module FileWatcher {
  import opened Wrappers
  import opened Strings
  import opened Paths

  const ImageExtensions: seq<string> := [".png", ".jpg", ".jpeg", ".webp", ".gif"]

  /** `isImageFile`: the lower-cased extension is one of the five. */
  predicate IsImageFile(filename: string) {
    Lower(ExtName(filename)) in ImageExtensions
  }

  /** The base name has a non-empty stem followed by one of the extensions, in any ASCII case. */
  predicate HasImageSuffix(b: string) {
    exists i | 0 <= i < |ImageExtensions| ::
      |b| > |ImageExtensions[i]| && Lower(b[|b| - |ImageExtensions[i]|..]) == ImageExtensions[i]
  }

  predicate NoDup<T(==)>(s: seq<T>) {
    forall i, j | 0 <= i < j < |s| :: s[i] != s[j]
  }

  // ---------------------------------------------------------------------------
  // The extension filter

  lemma LowerDot(c: char)
    ensures LowerChar(c) == '.' <==> c == '.'
  {
  }

  /** Each extension is a dot followed by letters. */
  lemma ExtensionShape(i: nat)
    requires i < |ImageExtensions|
    ensures |ImageExtensions[i]| >= 4 && ImageExtensions[i][0] == '.'
    ensures '.' !in ImageExtensions[i][1..]
  {
  }

  lemma ImageHasSuffix(f: string)
    requires IsImageFile(f)
    ensures HasImageSuffix(Base(f))
  {
    var b := Base(f);
    var k := LastIndexOf(b, '.');
    var e := Lower(ExtName(f));
    var i :| 0 <= i < |ImageExtensions| && ImageExtensions[i] == e;
    assert ExtName(f) == b[k.value..];
    assert |b| - |ImageExtensions[i]| == k.value;
  }

  /** In a stem followed by an extension, the extension's dot is the last dot. */
  lemma SuffixDotIsLast(b: string, i: nat)
    requires i < |ImageExtensions|
    requires |b| > |ImageExtensions[i]|
    requires Lower(b[|b| - |ImageExtensions[i]|..]) == ImageExtensions[i]
    ensures LastIndexOf(b, '.') == Some(|b| - |ImageExtensions[i]|)
  {
    var e := ImageExtensions[i];
    var n := |b| - |e|;
    ExtensionShape(i);
    assert LowerChar(b[n]) == Lower(b[n..])[0] == '.';
    LowerDot(b[n]);
    forall j | n < j < |b|
      ensures b[j] != '.'
    {
      assert LowerChar(b[j]) == e[j - n] == e[1..][j - n - 1];
      LowerDot(b[j]);
    }
  }

  lemma SuffixIsImage(f: string)
    requires HasImageSuffix(Base(f))
    ensures IsImageFile(f)
  {
    var b := Base(f);
    var i :| 0 <= i < |ImageExtensions| &&
      |b| > |ImageExtensions[i]| && Lower(b[|b| - |ImageExtensions[i]|..]) == ImageExtensions[i];
    SuffixDotIsLast(b, i);
    ExtensionShape(i);
    var n := |b| - |ImageExtensions[i]|;
    assert b != "..";
    assert ExtName(f) == b[n..];
  }

  /** A file is an image exactly when its base name is a stem plus an image extension. */
  lemma IsImageFileBySuffix(f: string)
    ensures IsImageFile(f) <==> HasImageSuffix(Base(f))
  {
    if IsImageFile(f) {
      ImageHasSuffix(f);
    }
    if HasImageSuffix(Base(f)) {
      SuffixIsImage(f);
    }
  }

  /** A directory entry that passes the filter names an entry: it is not "", "." or "..". */
  lemma ImageEntryIsPlain(f: string)
    requires NoSep(f) && IsImageFile(f)
    ensures Plain(f)
  {
    IsImageFileBySuffix(f);
    BaseOfEntry(f);
  }

  // ---------------------------------------------------------------------------
  // The initial scan

  /** A reported file: full path and modification time. */
  datatype DetectedFile = DetectedFile(path: string, mtime: int)

  /** The elements of `s` that `keep` accepts, in order. */
  function Filter<T(!new)>(keep: T -> bool, s: seq<T>): (r: seq<T>)
    ensures forall x :: x in r <==> x in s && keep(x)
  {
    if |s| == 0 then []
    else (if keep(s[0]) then [s[0]] else []) + Filter(keep, s[1..])
  }

  lemma {:induction false} FilterDistinct<T(!new)>(keep: T -> bool, s: seq<T>)
    requires NoDup(s)
    ensures NoDup(Filter(keep, s))
    decreases |s|
  {
    if |s| > 0 {
      assert NoDup(s[1..]) by {
        forall i, j | 0 <= i < j < |s| - 1
          ensures s[1..][i] != s[1..][j]
        {
          assert s[1..][i] == s[i + 1] && s[1..][j] == s[j + 1];
        }
      }
      FilterDistinct(keep, s[1..]);
      var rest := Filter(keep, s[1..]);
      assert s[0] !in s[1..];
      var r := Filter(keep, s);
      if keep(s[0]) {
        forall i, j | 0 <= i < j < |r|
          ensures r[i] != r[j]
        {
          assert r[j] == rest[j - 1] && r[j] in rest;
          if i > 0 {
            assert r[i] == rest[i - 1];
          }
        }
      } else {
        assert r == rest;
      }
    }
  }

  /** The `.filter(file => isImageFile(file))` step of the scan. */
  function ImageNames(names: seq<string>): (r: seq<string>)
    ensures forall n :: n in r <==> n in names && IsImageFile(n)
  {
    Filter(IsImageFile, names)
  }

  /** Each name joined to the directory and stat'ed; a failed stat drops the entry. */
  function StatAll(dir: string, names: seq<string>, mtimes: map<string, int>): (r: seq<DetectedFile>)
    ensures forall f | f in r :: f.path in mtimes && f.mtime == mtimes[f.path]
    ensures forall f :: f in r <==> exists n | n in names :: f.path == Join([dir, n]) && f.path in mtimes && f.mtime == mtimes[f.path]
  {
    if |names| == 0 then []
    else
      var p := Join([dir, names[0]]);
      (if p in mtimes then [DetectedFile(p, mtimes[p])] else []) + StatAll(dir, names[1..], mtimes)
  }

  predicate SortedByMtime(fs: seq<DetectedFile>) {
    forall i, j | 0 <= i < j < |fs| :: fs[i].mtime <= fs[j].mtime
  }

  predicate DistinctPaths(fs: seq<DetectedFile>) {
    NoDup(PathsOf(fs))
  }

  lemma SortedTail(s: seq<DetectedFile>)
    requires SortedByMtime(s) && |s| > 0
    ensures SortedByMtime(s[1..])
    ensures forall y | y in s[1..] :: s[0].mtime <= y.mtime
  {
    forall i, j | 0 <= i < j < |s| - 1
      ensures s[1..][i].mtime <= s[1..][j].mtime
    {
      assert s[1..][i] == s[i + 1] && s[1..][j] == s[j + 1];
    }
  }

  lemma SortedCons(a: DetectedFile, t: seq<DetectedFile>)
    requires SortedByMtime(t)
    requires forall y | y in t :: a.mtime <= y.mtime
    ensures SortedByMtime([a] + t)
  {
    forall i, j | 0 <= i < j < |t| + 1
      ensures ([a] + t)[i].mtime <= ([a] + t)[j].mtime
    {
      assert ([a] + t)[j] == t[j - 1];
      if i > 0 {
        assert ([a] + t)[i] == t[i - 1];
      } else {
        assert t[j - 1] in t;
      }
    }
  }

  /** Insert after every element with an equal or smaller time. */
  function Insert(x: DetectedFile, s: seq<DetectedFile>): (r: seq<DetectedFile>)
    requires SortedByMtime(s)
    ensures SortedByMtime(r)
    ensures multiset(r) == multiset(s) + multiset{x}
  {
    if |s| == 0 then [x]
    else if x.mtime < s[0].mtime then
      SortedTail(s);
      SortedCons(x, s);
      [x] + s
    else
      assert s == [s[0]] + s[1..];
      SortedTail(s);
      var rest := Insert(x, s[1..]);
      assert forall y | y in rest :: y in multiset(s[1..]) + multiset{x};
      SortedCons(s[0], rest);
      [s[0]] + rest
  }

  /** `sort((a, b) => a.mtime - b.mtime)`: stable, ascending by time. */
  function SortByMtime(s: seq<DetectedFile>): (r: seq<DetectedFile>)
    ensures SortedByMtime(r)
    ensures multiset(r) == multiset(s)
    ensures forall y :: y in r <==> y in s
  {
    if |s| == 0 then []
    else
      assert s == s[..|s| - 1] + [s[|s| - 1]];
      var r := Insert(s[|s| - 1], SortByMtime(s[..|s| - 1]));
      assert forall y :: y in r <==> y in multiset(r);
      r
  }

  /** `p` is the path of an entry of the listing that `keep` accepts and whose stat succeeds. */
  predicate ListedBy(keep: string -> bool, dir: string, listing: Option<seq<string>>, mtimes: map<string, int>, p: string) {
    listing.Some? && p in mtimes && exists n | n in listing.value :: keep(n) && p == Join([dir, n])
  }

  /** `p` is the path of an image entry of the listing whose stat succeeds. */
  predicate Listed(dir: string, listing: Option<seq<string>>, mtimes: map<string, int>, p: string) {
    ListedBy(IsImageFile, dir, listing, mtimes, p)
  }

  /** The stat'ed entries that `keep` accepts are exactly the listed paths it accepts. */
  lemma StatFiltered(keep: string -> bool, dir: string, names: seq<string>, mtimes: map<string, int>)
    ensures forall f :: f in StatAll(dir, Filter(keep, names), mtimes) <==>
      ListedBy(keep, dir, Some(names), mtimes, f.path) && f.mtime == mtimes[f.path]
  {
    var kept := Filter(keep, names);
    var stats := StatAll(dir, kept, mtimes);
    forall f
      ensures f in stats <==> ListedBy(keep, dir, Some(names), mtimes, f.path) && f.mtime == mtimes[f.path]
    {
      if f in stats {
        var n :| n in kept && f.path == Join([dir, n]) && f.path in mtimes && f.mtime == mtimes[f.path];
        assert n in names && keep(n);
      }
      if ListedBy(keep, dir, Some(names), mtimes, f.path) && f.mtime == mtimes[f.path] {
        var n :| n in names && keep(n) && f.path == Join([dir, n]);
        assert n in kept;
      }
    }
  }

  /** The scan of an existing directory; nothing when the listing fails. */
  function Scan(dir: string, listing: Option<seq<string>>, mtimes: map<string, int>): (r: seq<DetectedFile>)
    ensures SortedByMtime(r)
    ensures forall f :: f in r <==> Listed(dir, listing, mtimes, f.path) && f.mtime == mtimes[f.path]
  {
    match listing
    case None => []
    case Some(names) =>
      StatFiltered(IsImageFile, dir, names, mtimes);
      SortByMtime(StatAll(dir, Filter(IsImageFile, names), mtimes))
  }

  function PathsOf(fs: seq<DetectedFile>): (r: seq<string>)
    ensures |r| == |fs| && forall i | 0 <= i < |fs| :: r[i] == fs[i].path
  {
    seq(|fs|, i requires 0 <= i < |fs| => fs[i].path)
  }

  lemma DistinctCons(a: DetectedFile, t: seq<DetectedFile>)
    requires DistinctPaths(t)
    requires forall y | y in t :: y.path != a.path
    ensures DistinctPaths([a] + t)
  {
    forall i, j | 0 <= i < j < |t| + 1
      ensures ([a] + t)[i].path != ([a] + t)[j].path
    {
      assert ([a] + t)[j] == t[j - 1];
      if i > 0 {
        assert ([a] + t)[i] == t[i - 1];
      } else {
        assert t[j - 1] in t;
      }
    }
  }

  lemma DistinctTail(s: seq<DetectedFile>)
    requires DistinctPaths(s) && |s| > 0
    ensures DistinctPaths(s[1..])
    ensures forall y | y in s[1..] :: y.path != s[0].path
  {
    forall i, j | 0 <= i < j < |s| - 1
      ensures s[1..][i].path != s[1..][j].path
    {
      assert s[1..][i] == s[i + 1] && s[1..][j] == s[j + 1];
    }
  }

  lemma {:induction false} InsertDistinct(x: DetectedFile, s: seq<DetectedFile>)
    requires SortedByMtime(s) && DistinctPaths(s)
    requires forall y | y in s :: y.path != x.path
    ensures DistinctPaths(Insert(x, s))
    decreases |s|
  {
    if |s| == 0 {
    } else if x.mtime < s[0].mtime {
      DistinctCons(x, s);
    } else {
      SortedTail(s);
      DistinctTail(s);
      assert forall y | y in s[1..] :: y in s;
      InsertDistinct(x, s[1..]);
      var rest := Insert(x, s[1..]);
      forall y | y in rest
        ensures y.path != s[0].path
      {
        assert y in multiset(rest);
        assert y in multiset(s[1..]) || y == x;
      }
      DistinctCons(s[0], rest);
    }
  }

  lemma {:induction false} SortDistinct(s: seq<DetectedFile>)
    requires DistinctPaths(s)
    ensures DistinctPaths(SortByMtime(s))
    decreases |s|
  {
    if |s| > 0 {
      var pre := s[..|s| - 1];
      SortDistinct(pre);
      assert forall y | y in SortByMtime(pre) :: y in pre;
      InsertDistinct(s[|s| - 1], SortByMtime(pre));
    }
  }

  /** Entry names of one directory as the listing gives them: distinct, without separators. */
  predicate ListingNames(names: seq<string>) {
    NoDup(names) && forall i | 0 <= i < |names| :: NoSep(names[i])
  }

  lemma {:induction false} StatAllDistinct(dir: string, names: seq<string>, mtimes: map<string, int>)
    requires NoDup(names)
    requires forall i | 0 <= i < |names| :: Plain(names[i])
    ensures DistinctPaths(StatAll(dir, names, mtimes))
    decreases |names|
  {
    if |names| > 0 {
      StatAllDistinct(dir, names[1..], mtimes);
      var p := Join([dir, names[0]]);
      forall f | f in StatAll(dir, names[1..], mtimes)
        ensures f.path != p
      {
        var n :| n in names[1..] && f.path == Join([dir, n]);
        if f.path == p {
          JoinChildInjective(dir, n, names[0]);
        }
      }
    }
  }

  /** The scan reports each path once. */
  lemma ScanDistinct(dir: string, listing: Option<seq<string>>, mtimes: map<string, int>)
    requires listing.Some? ==> ListingNames(listing.value)
    ensures NoDup(PathsOf(Scan(dir, listing, mtimes)))
  {
    if listing.Some? {
      var names := ImageNames(listing.value);
      forall i | 0 <= i < |names|
        ensures Plain(names[i])
      {
        assert names[i] in listing.value;
        ImageEntryIsPlain(names[i]);
      }
      FilterDistinct(IsImageFile, listing.value);
      StatAllDistinct(dir, names, mtimes);
      SortDistinct(StatAll(dir, names, mtimes));
    }
  }

  // ---------------------------------------------------------------------------
  // The watcher

  /**
   * `watchedDirectory`, `detectedFiles`, the pending set of the current
   * watch (insertion ordered) and whether the debounce timer is armed.
   */
  datatype Watcher = Watcher(dir: Option<string>, detected: set<string>, pending: seq<string>, armed: bool)

  const Stopped: Watcher := Watcher(None, {}, [], false)

  /** `stopWatchingDirectory`: close the watch, clear the timer, the set and the directory. */
  function Stop(w: Watcher): Watcher {
    Stopped
  }

  /** `getWatchedDirectory` */
  function WatchedDirectory(w: Watcher): Option<string> {
    w.dir
  }

  datatype Started = Started(watcher: Watcher, reported: seq<string>)

  /**
   * `startWatchingDirectory`: stop first; a missing directory leaves the
   * watcher stopped; otherwise report the scan oldest first and watch.
   */
  function Start(w: Watcher, dir: string, dirExists: bool, listing: Option<seq<string>>,
                 mtimes: map<string, int>): (r: Started)
    ensures !dirExists ==> r == Started(Stopped, [])
    ensures dirExists ==> r.watcher.dir == Some(dir) && r.watcher.pending == [] && !r.watcher.armed
    ensures forall p :: p in r.reported <==> p in r.watcher.detected
  {
    var w0 := Stop(w);
    if !dirExists then Started(w0, [])
    else
      var found := Scan(dir, listing, mtimes);
      var paths := PathsOf(found);
      Started(w0.(dir := Some(dir), detected := set p | p in paths), paths)
  }

  lemma StartScans(w: Watcher, dir: string, listing: Option<seq<string>>, mtimes: map<string, int>)
    ensures Start(w, dir, true, listing, mtimes).reported == PathsOf(Scan(dir, listing, mtimes))
  {
  }

  /** On an existing directory, start reports each path once. */
  lemma StartReportsOnce(w: Watcher, dir: string, listing: Option<seq<string>>, mtimes: map<string, int>)
    requires listing.Some? ==> ListingNames(listing.value)
    ensures NoDup(Start(w, dir, true, listing, mtimes).reported)
  {
    ScanDistinct(dir, listing, mtimes);
  }

  /** On an existing directory, start reports exactly the image entries whose stat succeeds. */
  lemma StartReportsListed(w: Watcher, dir: string, listing: Option<seq<string>>, mtimes: map<string, int>)
    ensures forall p :: p in Start(w, dir, true, listing, mtimes).reported <==> Listed(dir, listing, mtimes, p)
  {
    StartScans(w, dir, listing, mtimes);
    var found := Scan(dir, listing, mtimes);
    var reported := Start(w, dir, true, listing, mtimes).reported;
    forall p | p in reported
      ensures Listed(dir, listing, mtimes, p)
    {
      var i :| 0 <= i < |reported| && reported[i] == p;
      assert found[i] in found;
    }
    forall p | Listed(dir, listing, mtimes, p)
      ensures p in reported
    {
      var f := DetectedFile(p, mtimes[p]);
      assert f in found;
      var i :| 0 <= i < |found| && found[i] == f;
      assert reported[i] == p;
    }
  }

  /** On an existing directory, start reports oldest first. */
  lemma StartReportsOldestFirst(w: Watcher, dir: string, listing: Option<seq<string>>, mtimes: map<string, int>)
    ensures var reported := Start(w, dir, true, listing, mtimes).reported;
      forall i, j | 0 <= i < j < |reported| ::
        reported[i] in mtimes && reported[j] in mtimes && mtimes[reported[i]] <= mtimes[reported[j]]
  {
    StartScans(w, dir, listing, mtimes);
    var found := Scan(dir, listing, mtimes);
    forall i | 0 <= i < |found|
      ensures found[i].path in mtimes && found[i].mtime == mtimes[found[i].path]
    {
      assert found[i] in found;
    }
  }

  /** Appending a new element keeps a sequence duplicate-free. */
  lemma NoDupSnoc<T>(s: seq<T>, x: T)
    requires x !in s
    ensures NoDup(s) ==> NoDup(s + [x])
  {
    if NoDup(s) {
      forall i, j | 0 <= i < j < |s| + 1
        ensures (s + [x])[i] != (s + [x])[j]
      {
        assert (s + [x])[i] == s[i];
        if j == |s| {
          assert s[i] in s;
        } else {
          assert (s + [x])[j] == s[j];
        }
      }
    }
  }

  /** A raw change notification for `filename` (`None` for a null name). */
  function OnChange(w: Watcher, filename: Option<string>): (r: Watcher)
    ensures w.dir.None? || filename.None? || !IsImageFile(filename.value) ==> r == w
    ensures w.dir.Some? && filename.Some? && IsImageFile(filename.value) ==>
      && r == w.(pending := r.pending, armed := true)
      && Join([w.dir.value, filename.value]) in r.pending
      && (forall p :: p in r.pending <==> p in w.pending || p == Join([w.dir.value, filename.value]))
      && |r.pending| >= |w.pending| && r.pending[..|w.pending|] == w.pending
      && |r.pending| == |w.pending| + (if Join([w.dir.value, filename.value]) in w.pending then 0 else 1)
  {
    if w.dir.None? || filename.None? || filename.value == "" || !IsImageFile(filename.value) then w
    else
      var p := Join([w.dir.value, filename.value]);
      w.(pending := if p in w.pending then w.pending else w.pending + [p], armed := true)
  }

  /** A path already pending is not added again, so the pending set holds each path once. */
  lemma OnChangePendingOnce(w: Watcher, filename: Option<string>)
    ensures NoDup(w.pending) ==> NoDup(OnChange(w, filename).pending)
  {
    var r := OnChange(w, filename);
    if r != w && NoDup(w.pending) {
      var p := Join([w.dir.value, filename.value]);
      if p !in w.pending {
        assert r.pending == w.pending + [p] by {
          assert |r.pending| == |w.pending| + 1;
          assert r.pending[|w.pending|] in r.pending;
        }
        NoDupSnoc(w.pending, p);
      }
    }
  }

  datatype Promoted = Promoted(detected: set<string>, reported: seq<string>)

  /** The timer callback's loop over the pending paths, in insertion order. */
  function Promote(pending: seq<string>, present: set<string>, detected: set<string>): (r: Promoted)
    ensures forall p :: p in r.reported <==> p in pending && p in present && p !in detected
    ensures forall p :: p in r.detected <==> p in detected || p in r.reported
    ensures NoDup(r.reported)
  {
    if |pending| == 0 then Promoted(detected, [])
    else
      var p := pending[0];
      if p in present && p !in detected then
        var rest := Promote(pending[1..], present, detected + {p});
        Promoted(rest.detected, [p] + rest.reported)
      else
        Promote(pending[1..], present, detected)
  }

  datatype Fired = Fired(watcher: Watcher, reported: seq<string>)

  /**
   * The debounce timer fires: report every pending path that exists and was
   * not reported yet, then forget all pending paths.
   */
  function OnTimer(w: Watcher, present: set<string>): (r: Fired)
    ensures !w.armed ==> r == Fired(w, [])
    ensures w.armed ==> r.watcher == w.(detected := r.watcher.detected, pending := [], armed := false)
    ensures w.armed ==> forall p :: p in r.reported <==> p in w.pending && p in present && p !in w.detected
    ensures forall p :: p in r.watcher.detected <==> p in w.detected || p in r.reported
    ensures NoDup(r.reported)
  {
    if !w.armed then Fired(w, [])
    else
      var pr := Promote(w.pending, present, w.detected);
      Fired(w.(detected := pr.detected, pending := [], armed := false), pr.reported)
  }

  // ---------------------------------------------------------------------------
  // Sessions

  datatype Event =
    | StartWatch(dir: string, dirExists: bool, listing: Option<seq<string>>, mtimes: map<string, int>)
    | Change(filename: Option<string>)
    | TimerFires(present: set<string>)
    | StopWatch

  /** The watcher and everything reported since the last start or stop. */
  datatype Session = Session(watcher: Watcher, log: seq<string>)

  function Apply(s: Session, e: Event): Session {
    match e
    case StartWatch(dir, ok, listing, mtimes) =>
      var r := Start(s.watcher, dir, ok, listing, mtimes);
      Session(r.watcher, r.reported)
    case Change(name) => Session(OnChange(s.watcher, name), s.log)
    case TimerFires(present) =>
      var r := OnTimer(s.watcher, present);
      Session(r.watcher, s.log + r.reported)
    case StopWatch => Session(Stop(s.watcher), [])
  }

  function Run(s: Session, events: seq<Event>): Session
    decreases |events|
  {
    if |events| == 0 then s else Run(Apply(s, events[0]), events[1..])
  }

  /** Directory listings come from the operating system. */
  predicate ListingsWellFormed(events: seq<Event>) {
    forall i | 0 <= i < |events| ::
      events[i].StartWatch? && events[i].listing.Some? ==> ListingNames(events[i].listing.value)
  }

  /**
   * The session invariant: nothing reported twice, the reports are exactly
   * the detected set, each pending path is pending once, a disarmed timer
   * has nothing pending, and a stopped watcher holds nothing.
   */
  predicate Inv(s: Session) {
    && NoDup(s.log)
    && NoDup(s.watcher.pending)
    && (forall p | p in s.log :: p in s.watcher.detected)
    && (forall p | p in s.watcher.detected :: p in s.log)
    && (!s.watcher.armed ==> s.watcher.pending == [])
    && (s.watcher.dir.None? ==> s.watcher == Stopped)
  }

  lemma ApplyKeepsInv(s: Session, e: Event)
    requires Inv(s)
    requires e.StartWatch? && e.listing.Some? ==> ListingNames(e.listing.value)
    ensures Inv(Apply(s, e))
  {
    match e
    case StartWatch(dir, ok, listing, mtimes) =>
      ScanDistinct(dir, listing, mtimes);
    case Change(name) =>
      OnChangePendingOnce(s.watcher, name);
    case TimerFires(present) =>
      var r := OnTimer(s.watcher, present);
      var log := s.log + r.reported;
      forall i, j | 0 <= i < j < |log|
        ensures log[i] != log[j]
      {
        if i < |s.log| && j >= |s.log| {
          assert log[j] in r.reported;
          assert log[i] in s.watcher.detected;
        }
      }
    case StopWatch =>
  }

  /** Within every session, no path is reported twice and the reports are the detected set. */
  lemma {:induction false} RunKeepsInv(s: Session, events: seq<Event>)
    requires Inv(s) && ListingsWellFormed(events)
    ensures Inv(Run(s, events))
    decreases |events|
  {
    if |events| > 0 {
      ApplyKeepsInv(s, events[0]);
      assert ListingsWellFormed(events[1..]) by {
        forall i | 0 <= i < |events[1..]|
          ensures events[1..][i] == events[i + 1]
        {
        }
      }
      RunKeepsInv(Apply(s, events[0]), events[1..]);
    }
  }

  // ---------------------------------------------------------------------------
  // Stop, restart and the shared timer

  /** Stop empties everything, disarms the timer and is idempotent. */
  lemma StopResets(w: Watcher)
    ensures WatchedDirectory(Stop(w)) == None
    ensures Stop(w).detected == {} && Stop(w).pending == [] && !Stop(w).armed
    ensures Stop(Stop(w)) == Stop(w)
  {
  }

  /** Restarting on an unchanged directory reports the same files again. */
  lemma RestartReportsAgain(w: Watcher, dir: string, listing: Option<seq<string>>, mtimes: map<string, int>)
    ensures var first := Start(w, dir, true, listing, mtimes);
      Start(Stop(first.watcher), dir, true, listing, mtimes) == first
  {
  }

  /** Changes while no directory is watched, or for non-images, do nothing. */
  lemma IgnoredChanges(w: Watcher, name: Option<string>)
    requires w.dir.None? || name.None? || !IsImageFile(name.value)
    ensures OnChange(w, name) == w
  {
  }

  function Burst(w: Watcher, names: seq<string>): Watcher
    decreases |names|
  {
    if |names| == 0 then w else Burst(OnChange(w, Some(names[0])), names[1..])
  }

  /** A burst keeps the directory and the detected set, and only adds pending paths. */
  lemma {:induction false} BurstKeeps(w: Watcher, names: seq<string>)
    requires w.dir.Some?
    requires forall i | 0 <= i < |names| :: IsImageFile(names[i])
    ensures Burst(w, names).dir == w.dir && Burst(w, names).detected == w.detected
    ensures w.armed || |names| > 0 ==> Burst(w, names).armed
    ensures forall p | p in w.pending :: p in Burst(w, names).pending
    decreases |names|
  {
    if |names| > 0 {
      BurstKeeps(OnChange(w, Some(names[0])), names[1..]);
    }
  }

  lemma AllImagesTail(names: seq<string>)
    requires |names| > 0 && forall k | 0 <= k < |names| :: IsImageFile(names[k])
    ensures forall k | 0 <= k < |names[1..]| :: IsImageFile(names[1..][k])
  {
    forall k | 0 <= k < |names[1..]|
      ensures names[1..][k] == names[k + 1]
    {
    }
  }

  /** An image notification keeps the directory and makes its path pending. */
  lemma ChangeStep(w: Watcher, name: string)
    requires w.dir.Some? && IsImageFile(name)
    ensures OnChange(w, Some(name)).dir == w.dir
    ensures Join([w.dir.value, name]) in OnChange(w, Some(name)).pending
  {
  }

  /** The first file of a burst is still pending once the burst is over. */
  lemma BurstFirstPending(w: Watcher, names: seq<string>)
    requires w.dir.Some? && |names| > 0
    requires forall k | 0 <= k < |names| :: IsImageFile(names[k])
    ensures Join([w.dir.value, names[0]]) in Burst(w, names).pending
  {
    var w1 := OnChange(w, Some(names[0]));
    ChangeStep(w, names[0]);
    AllImagesTail(names);
    BurstKeeps(w1, names[1..]);
  }

  /** Each file of a burst is pending once the burst is over. */
  lemma {:induction false} BurstPending(w: Watcher, names: seq<string>, i: nat)
    requires w.dir.Some? && i < |names|
    requires forall k | 0 <= k < |names| :: IsImageFile(names[k])
    ensures Join([w.dir.value, names[i]]) in Burst(w, names).pending
    decreases i
  {
    if i == 0 {
      BurstFirstPending(w, names);
    } else {
      var w1 := OnChange(w, Some(names[0]));
      ChangeStep(w, names[0]);
      AllImagesTail(names);
      assert names[1..][i - 1] == names[i];
      BurstPending(w1, names[1..], i - 1);
    }
  }

  /**
   * However long a burst of image notifications lasts, nothing is reported
   * during it and every file of the burst waits on the one timer; its
   * earliest files are only examined when that timer finally fires.
   */
  lemma BurstDefersEverything(w: Watcher, names: seq<string>)
    requires w.dir.Some? && |names| > 0
    requires forall i | 0 <= i < |names| :: IsImageFile(names[i])
    ensures Burst(w, names).armed
    ensures Burst(w, names).detected == w.detected && Burst(w, names).dir == w.dir
    ensures forall i | 0 <= i < |names| :: Join([w.dir.value, names[i]]) in Burst(w, names).pending
  {
    BurstKeeps(w, names);
    forall i | 0 <= i < |names|
      ensures Join([w.dir.value, names[i]]) in Burst(w, names).pending
    {
      BurstPending(w, names, i);
    }
  }
}
