/** build-webkit.sh: when the cached library is kept, and what it was built from. */
module StampCache {
  import opened Wrappers

  type Hash = string

  /** What a library is built from. A missing toolchain file is the empty string. */
  datatype Triple = Triple(toolchain: Hash, features: Hash, version: string)

  /** The features hash is that of a pipe and the version has a default, so neither is ever empty. */
  predicate Proper(t: Triple) {
    t.features != "" && t.version != ""
  }

  /** A resolved WPE_SOURCE_DIR. */
  datatype Directory = Directory(parent: string, name: string)

  /** The folder in the tarball of a version. */
  function Folder(version: string): string {
    "wpewebkit-" + version
  }

  datatype Prefix = Prefix(
    library: Option<Triple>,
    toolchainStamp: Option<Hash>,
    featuresStamp: Option<Hash>,
    versionStamp: Option<string>,
    sources: set<Directory>,
    trees: map<Directory, Triple>)   // source directory -> what its build tree was built from

  const EMPTY := Prefix(None, None, None, None, {}, map[])

  /** How far a run gets. Each stage but the last is a place where it stops. */
  datatype Stage =
    | AtStart | AfterToolchainCheck | AfterFeaturesCheck | AfterVersionCheck | AfterSources | AfterBuild
    | AfterInstall | AfterToolchainStamp | AfterVersionStamp | Completed

  function Rank(s: Stage): nat {
    match s
    case AtStart => 0
    case AfterToolchainCheck => 1
    case AfterFeaturesCheck => 2
    case AfterVersionCheck => 3
    case AfterSources => 4
    case AfterBuild => 5
    case AfterInstall => 6
    case AfterToolchainStamp => 7
    case AfterVersionStamp => 8
    case Completed => 9
  }

  predicate Reaches(stop: Stage, s: Stage) {
    Rank(stop) >= Rank(s)
  }

  /** One run: its inputs, the source directory it is pointed at, and where it stops if nothing fails. */
  datatype Job = Job(triple: Triple, dir: Directory, stop: Stage)

  function CheckToolchain(p: Prefix, t: Triple): Prefix {
    if t.toolchain != "" && p.toolchainStamp.Some? && p.library.Some? && p.toolchainStamp.value != t.toolchain
    then p.(library := None) else p
  }

  function CheckFeatures(p: Prefix, t: Triple): Prefix {
    if t.features != "" && p.featuresStamp.Some? && p.library.Some? && p.featuresStamp.value != t.features
    then p.(library := None) else p
  }

  function CheckVersion(p: Prefix, t: Triple): Prefix {
    var saved := if p.versionStamp.Some? then p.versionStamp.value else "";
    if p.library.Some? && saved != t.version then p.(library := None) else p
  }

  function Checked(p: Prefix, t: Triple, stop: Stage): Prefix {
    var a := if Reaches(stop, AfterToolchainCheck) then CheckToolchain(p, t) else p;
    var b := if Reaches(stop, AfterFeaturesCheck) then CheckFeatures(a, t) else a;
    if Reaches(stop, AfterVersionCheck) then CheckVersion(b, t) else b
  }

  /** rm -rf, since CI_CACHE_ROOT is never empty, and then tar into the parent directory. */
  function Unpack(p: Prefix, j: Job): Prefix {
    var a := if j.dir in p.sources then p.(sources := p.sources - {j.dir}, trees := p.trees - {j.dir}) else p;
    a.(sources := a.sources + {Directory(j.dir.parent, Folder(j.triple.version))})
  }

  /** cmake --install from the build tree. */
  function Install(p: Prefix, dir: Directory): Prefix
    requires dir in p.trees
  {
    p.(library := Some(p.trees[dir]))
  }

  datatype Ran = Ran(prefix: Prefix, completed: bool)

  function Rebuild(p: Prefix, j: Job): Ran {
    var a := Unpack(p, j);
    if j.dir !in a.sources || !Reaches(j.stop, AfterBuild) then Ran(a, false)   // cd fails, or it stops here
    else
      var b := a.(trees := a.trees[j.dir := j.triple]);
      if !Reaches(j.stop, AfterInstall) then Ran(b, false)
      else
        var c := Install(b, j.dir);
        var d := if Reaches(j.stop, AfterToolchainStamp) then c.(toolchainStamp := Some(j.triple.toolchain)) else c;
        var e := if Reaches(j.stop, AfterVersionStamp) then d.(versionStamp := Some(j.triple.version)) else d;
        if j.stop == Completed then Ran(e.(featuresStamp := Some(j.triple.features)), true) else Ran(e, false)
  }

  function Reinstall(p: Prefix, j: Job): Ran {
    if !Reaches(j.stop, AfterInstall) || j.dir !in p.trees then Ran(p, false)
    else Ran(Install(p, j.dir), j.stop == Completed)
  }

  /** Hashing a toolchain file that is not there ends the run at once (set -e with pipefail). */
  function Build(p: Prefix, j: Job): Ran {
    var c := Checked(p, j.triple, j.stop);
    if j.triple.toolchain == "" then Ran(p, false)
    else if !Reaches(j.stop, AfterSources) then Ran(c, false)
    else if c.library.None? then Rebuild(c, j)
    else Reinstall(c, j)
  }

  class BuildPrefix {
    var library: Option<Triple>
    var toolchainStamp: Option<Hash>
    var featuresStamp: Option<Hash>
    var versionStamp: Option<string>
    var sources: set<Directory>
    var trees: map<Directory, Triple>

    ghost function Now(): Prefix
      reads this
    {
      Prefix(library, toolchainStamp, featuresStamp, versionStamp, sources, trees)
    }

    constructor ()
      ensures Now() == EMPTY
    {
      library, toolchainStamp, featuresStamp, versionStamp := None, None, None, None;
      sources, trees := {}, map[];
    }

    method CheckStamps(t: Triple, stop: Stage)
      modifies this`library
      ensures Now() == Checked(old(Now()), t, stop)
    {
      hide CheckToolchain, CheckFeatures, CheckVersion;
      if !Reaches(stop, AfterToolchainCheck) {
        return;
      }
      CheckToolchainStamp(t);
      if !Reaches(stop, AfterFeaturesCheck) {
        return;
      }
      CheckFeaturesStamp(t);
      if Reaches(stop, AfterVersionCheck) {
        CheckVersionStamp(t);
      }
    }

    method CheckToolchainStamp(t: Triple)
      modifies this`library
      ensures Now() == CheckToolchain(old(Now()), t)
    {
      if t.toolchain != "" && toolchainStamp.Some? && library.Some? {
        if t.toolchain != toolchainStamp.value {
          library := None;
        }
      }
    }

    method CheckFeaturesStamp(t: Triple)
      modifies this`library
      ensures Now() == CheckFeatures(old(Now()), t)
    {
      if t.features != "" && featuresStamp.Some? && library.Some? {
        if t.features != featuresStamp.value {
          library := None;
        }
      }
    }

    method CheckVersionStamp(t: Triple)
      modifies this`library
      ensures Now() == CheckVersion(old(Now()), t)
    {
      if library.Some? {
        var saved := if versionStamp.Some? then versionStamp.value else "";
        if t.version != saved {
          library := None;
        }
      }
    }

    method Run(j: Job) returns (completed: bool)
      modifies this
      ensures Ran(Now(), completed) == Build(old(Now()), j)
    {
      hide Rebuild;
      if j.triple.toolchain == "" {
        return false;
      }
      CheckStamps(j.triple, j.stop);
      if !Reaches(j.stop, AfterSources) {
        return false;
      }
      if library.None? {
        completed := Recompile(j);
        return;
      }
      if !Reaches(j.stop, AfterInstall) || j.dir !in trees {
        return false;
      }
      library := Some(trees[j.dir]);
      return j.stop == Completed;
    }

    /** The branch taken when no library is installed. */
    method Recompile(j: Job) returns (completed: bool)
      requires Reaches(j.stop, AfterSources)
      modifies this
      ensures Ran(Now(), completed) == Rebuild(old(Now()), j)
    {
      hide Unpack;
      PrepareSources(j);
      if j.dir !in sources || !Reaches(j.stop, AfterBuild) {
        return false;
      }
      trees := trees[j.dir := j.triple];
      if !Reaches(j.stop, AfterInstall) {
        return false;
      }
      library := Some(trees[j.dir]);
      if !Reaches(j.stop, AfterToolchainStamp) {
        return false;
      }
      toolchainStamp := Some(j.triple.toolchain);
      if !Reaches(j.stop, AfterVersionStamp) {
        return false;
      }
      versionStamp := Some(j.triple.version);
      if j.stop != Completed {
        return false;
      }
      featuresStamp := Some(j.triple.features);
      return true;
    }

    method PrepareSources(j: Job)
      modifies this`sources, this`trees
      ensures Now() == Unpack(old(Now()), j)
    {
      if j.dir in sources {
        sources, trees := sources - {j.dir}, trees - {j.dir};
      }
      if j.dir !in sources {
        sources := sources + {Directory(j.dir.parent, Folder(j.triple.version))};
      }
    }
  }

  // ----- Coherence

  /** Which source directories the runs of a version may be pointed at. */
  type Layout = (string, Directory) -> bool

  /** A run of version `v` pointed at `d` finds its unpacked sources there. */
  predicate Buildable(layout: Layout, v: string, d: Directory) {
    v != "" && layout(v, d) && d.name == Folder(v)
  }

  /** A version that can be built in one directory is pointed at no other that can hold a build. */
  ghost predicate OneDirectory(layout: Layout) {
    forall v, w, a, b :: Buildable(layout, v, a) && layout(v, b) && Buildable(layout, w, b) ==> a == b
  }

  ghost predicate BuiltIn(layout: Layout, p: Prefix, d: Directory, t: Triple) {
    Buildable(layout, t.version, d) && d in p.trees && p.trees[d] == t
  }

  /** The library, if there is one, is the one its three stamps name, and its build tree still holds it. */
  ghost predicate Coherent(layout: Layout, p: Prefix) {
    && (forall d :: d in p.trees ==> Buildable(layout, p.trees[d].version, d))
    && (p.library.Some? ==>
          var t := p.library.value;
          && p.toolchainStamp == Some(t.toolchain)
          && p.featuresStamp == Some(t.features)
          && p.versionStamp == Some(t.version)
          && exists d :: BuiltIn(layout, p, d, t))
  }

  /** A run that completes, or stops before it installs. */
  predicate Safe(stop: Stage) {
    stop == Completed || !Reaches(stop, AfterInstall)
  }

  predicate Fits(layout: Layout, j: Job) {
    Proper(j.triple) && Safe(j.stop) && layout(j.triple.version, j.dir)
  }

  lemma ChecksKeepOnlyOwn(layout: Layout, p: Prefix, t: Triple, stop: Stage)
    requires Coherent(layout, p) && Proper(t) && t.toolchain != ""
    ensures var q := Checked(p, t, stop);
            && Coherent(layout, q) && q.trees == p.trees
            && (q.library.Some? ==> q == p && (Reaches(stop, AfterVersionCheck) ==> q.library.value == t))
  {
  }

  lemma RebuildCoherent(layout: Layout, p: Prefix, j: Job)
    requires Fits(layout, j) && Coherent(layout, p) && p.library.None?
    ensures var r := Rebuild(p, j);
            && Coherent(layout, r.prefix)
            && (r.completed ==> r.prefix.library == Some(j.triple))
  {
    var r, a := Rebuild(p, j), Unpack(p, j);
    assert forall d :: d in a.trees ==> d in p.trees && a.trees[d] == p.trees[d];
    if r.prefix.library.Some? {
      assert j.dir in a.sources && j.dir !in p.sources - {j.dir};
      assert BuiltIn(layout, r.prefix, j.dir, j.triple);
    }
  }

  /** One more run that completes or stops before it installs keeps the prefix coherent, and if it
      completes, the library is its own. */
  lemma BuildCoherent(layout: Layout, p: Prefix, j: Job)
    requires OneDirectory(layout) && Coherent(layout, p) && Fits(layout, j)
    ensures var r := Build(p, j);
            Coherent(layout, r.prefix) && (r.completed ==> r.prefix.library == Some(j.triple))
  {
    hide Rebuild, Checked, Coherent;
    if j.triple.toolchain != "" {
      ChecksKeepOnlyOwn(layout, p, j.triple, j.stop);
      var c := Checked(p, j.triple, j.stop);
      if Reaches(j.stop, AfterSources) {
        if c.library.None? {
          RebuildCoherent(layout, c, j);
        } else {
          SameTree(layout, c, j);
        }
      }
    }
  }

  /** A library that survives the checks is the one in the build tree it is reinstalled from. */
  lemma SameTree(layout: Layout, p: Prefix, j: Job)
    requires OneDirectory(layout) && Coherent(layout, p) && Fits(layout, j) && p.library == Some(j.triple)
    ensures j.dir in p.trees ==> p.trees[j.dir] == j.triple
  {
    var d :| BuiltIn(layout, p, d, j.triple);
    if j.dir in p.trees {
      assert Buildable(layout, p.trees[j.dir].version, j.dir);
    }
  }

  function Builds(p: Prefix, jobs: seq<Job>): Prefix
    decreases |jobs|
  {
    if jobs == [] then p else Builds(Build(p, jobs[0]).prefix, jobs[1..])
  }

  ghost predicate Orderly(layout: Layout, jobs: seq<Job>) {
    forall j :: j in jobs ==> Fits(layout, j)
  }

  lemma {:induction false} BuildsCoherent(layout: Layout, p: Prefix, jobs: seq<Job>)
    requires OneDirectory(layout) && Orderly(layout, jobs) && Coherent(layout, p)
    ensures Coherent(layout, Builds(p, jobs))
    decreases |jobs|
  {
    hide Build, Coherent, OneDirectory, Fits;
    if jobs != [] {
      assert jobs[0] in jobs;
      BuildCoherent(layout, p, jobs[0]);
      assert Orderly(layout, jobs[1..]) by { assert forall j :: j in jobs[1..] ==> j in jobs; }
      BuildsCoherent(layout, Build(p, jobs[0]).prefix, jobs[1..]);
    }
  }

  ghost predicate LeavesOwn(p: Prefix, j: Job) {
    Build(p, j).completed ==> Build(p, j).prefix.library == Some(j.triple)
  }

  /** Every completed run after any history of completed and early-stopped runs leaves a library built
      from that run's own triple. */
  ghost predicate AlwaysOwn(layout: Layout) {
    forall jobs, j :: Orderly(layout, jobs) && Fits(layout, j) ==> LeavesOwn(Builds(EMPTY, jobs), j)
  }

  /** A run that is pointed at another directory than the last one reinstalls what was built there before. */
  lemma SecondDirectoryMislabels(layout: Layout, v: string, w: string, a: Directory, b: Directory)
    requires Buildable(layout, v, a) && layout(v, b) && Buildable(layout, w, b) && a != b
    ensures var t, u := Triple("s", "f", w), Triple("t", "f", v);
            var jobs := [Job(t, b, Completed), Job(u, a, Completed)];
            Orderly(layout, jobs) && !LeavesOwn(Builds(EMPTY, jobs), Job(u, b, Completed))
  {
    var t, u := Triple("s", "f", w), Triple("t", "f", v);
    var j, k := Job(t, b, Completed), Job(u, a, Completed);
    assert [j, k][1..] == [k] && [k][1..] == [];
    var p := Build(EMPTY, j).prefix;
    assert p.library == Some(t) && p.trees[b] == t && p.toolchainStamp == Some("s");
    var q := Build(p, k).prefix;
    SecondBuild(p, k);
    assert Builds(EMPTY, [j, k]) == Builds(p, [k]) == Builds(q, []) == q;
    assert Checked(q, u, Completed) == q;
  }

  lemma SecondBuild(p: Prefix, k: Job)
    requires p.library.Some? && p.toolchainStamp.Some? && k.triple.toolchain !in {"", p.toolchainStamp.value}
    requires k.stop == Completed && k.dir.name == Folder(k.triple.version)
    ensures var q := Build(p, k).prefix;
            && q.library == Some(k.triple) && q.toolchainStamp == Some(k.triple.toolchain)
            && q.featuresStamp == Some(k.triple.features) && q.versionStamp == Some(k.triple.version)
            && forall d :: d in p.trees && d != k.dir ==> d in q.trees && q.trees[d] == p.trees[d]
  {
    assert Checked(p, k.triple, k.stop).library == None;
  }

  /** A completed run always leaves its own library, whatever ran before, exactly when each version
      keeps to one source directory. */
  lemma AlwaysOwnIff(layout: Layout)
    ensures AlwaysOwn(layout) <==> OneDirectory(layout)
  {
    hide Build, Builds, Coherent;
    if OneDirectory(layout) {
      forall jobs, j | Orderly(layout, jobs) && Fits(layout, j)
        ensures LeavesOwn(Builds(EMPTY, jobs), j)
      {
        EmptyCoherent(layout);
        BuildsCoherent(layout, EMPTY, jobs);
        BuildCoherent(layout, Builds(EMPTY, jobs), j);
      }
    } else {
      var v, w, a, b :| Buildable(layout, v, a) && layout(v, b) && Buildable(layout, w, b) && a != b;
      SecondDirectoryMislabels(layout, v, w, a, b);
      assert Fits(layout, Job(Triple("t", "f", v), b, Completed));
    }
  }

  lemma EmptyCoherent(layout: Layout)
    ensures Coherent(layout, EMPTY)
  {
  }

  /** The directory is a function of the version, as it is while WPE_SOURCE_DIR and CI_CACHE_ROOT stay. */
  function Fixed(dirOf: string -> Directory): Layout {
    (v, d) => d == dirOf(v)
  }

  /** With fixed directories, of whatever name and shared or not, every completed run leaves its own library. */
  lemma FixedDirectoryAlwaysOwn(dirOf: string -> Directory)
    ensures AlwaysOwn(Fixed(dirOf))
  {
    hide AlwaysOwn;
    AlwaysOwnIff(Fixed(dirOf));
  }

  // ----- What one undisturbed run does

  /** A library whose stamps match is kept: nothing is unpacked or compiled, it is only installed again from
      the build tree, and the run completes; without that tree it fails. */
  lemma CacheHit(p: Prefix, j: Job)
    requires Proper(j.triple) && j.triple.toolchain != "" && j.stop == Completed
    requires p.library.Some? && Names(p, j.triple)
    ensures var r := Build(p, j);
            && (r.completed <==> j.dir in p.trees)
            && r.prefix == p.(library := if j.dir in p.trees then Some(p.trees[j.dir]) else p.library)
  {
  }

  /** Otherwise it is built anew in the run's own directory, whatever was there, and all three stamps are
      written. This fails exactly when the tarball does not unpack into that directory. */
  lemma CacheMiss(p: Prefix, j: Job)
    requires Proper(j.triple) && j.triple.toolchain != "" && j.stop == Completed
    requires p.library.None? || Mismatch(p, j.triple)
    ensures var r := Build(p, j);
            && (r.completed <==> j.dir.name == "wpewebkit-" + j.triple.version)
            && (r.completed ==>
                  && r.prefix.library == Some(j.triple) && Names(r.prefix, j.triple)
                  && r.prefix.trees == p.trees[j.dir := j.triple])
            && (!r.completed ==> r.prefix.library == None)
  {
    assert Checked(p, j.triple, Completed) == p.(library := None);
    SourcesUnpacked(p.(library := None), j);
    hide Checked, Unpack;
  }

  lemma SourcesUnpacked(p: Prefix, j: Job)
    ensures var a := Unpack(p, j);
            && (j.dir in a.sources <==> j.dir.name == "wpewebkit-" + j.triple.version)
            && a.trees[j.dir := j.triple] == p.trees[j.dir := j.triple] && a.library == p.library
  {
  }

  /** One of the checks fails: a stamp that is there differs, or the version stamp is missing. */
  predicate Mismatch(p: Prefix, t: Triple) {
    || (p.toolchainStamp.Some? && p.toolchainStamp.value != t.toolchain)
    || (p.featuresStamp.Some? && p.featuresStamp.value != t.features)
    || p.versionStamp != Some(t.version)
  }

  // ----- What a run that is killed has done

  /** The library goes exactly when one of the checks that were reached fails; nothing else changes, and a run
      stopped before the first check changes nothing. */
  lemma ChecksExactly(p: Prefix, j: Job)
    requires Proper(j.triple) && j.triple.toolchain != "" && Rank(j.stop) <= 3
    ensures var t := j.triple;
            var fails :=
              || (j.stop != AtStart && p.toolchainStamp.Some? && p.toolchainStamp.value != t.toolchain)
              || (j.stop !in {AtStart, AfterToolchainCheck}
                  && p.featuresStamp.Some? && p.featuresStamp.value != t.features)
              || (j.stop == AfterVersionCheck && p.versionStamp != Some(t.version));
            Build(p, j) == Ran(if fails then p.(library := None) else p, false)
  {
  }

  /** A rebuild stopped at a stage has done what precedes it, and none of what follows. */
  lemma RebuildUpTo(p: Prefix, j: Job)
    requires Proper(j.triple) && j.triple.toolchain != "" && Rank(j.stop) >= 4
    requires p.library.None? && j.dir.name == "wpewebkit-" + j.triple.version
    ensures var r, n, t := Build(p, j), Rank(j.stop), j.triple;
            && (r.completed <==> n == 9) && j.dir in r.prefix.sources
            && (n >= 5 ==> r.prefix.trees == p.trees[j.dir := t])
            && (n == 4 && j.dir in p.sources ==> j.dir !in r.prefix.trees)
            && r.prefix.library == (if n >= 6 then Some(t) else None)
            && r.prefix.toolchainStamp == (if n >= 7 then Some(t.toolchain) else p.toolchainStamp)
            && r.prefix.versionStamp == (if n >= 8 then Some(t.version) else p.versionStamp)
            && r.prefix.featuresStamp == (if n >= 9 then Some(t.features) else p.featuresStamp)
  {
    assert Checked(p, j.triple, j.stop) == p;
    SourcesUnpacked(p, j);
    RemovedFirst(p, j);
    hide Checked, Unpack;
  }

  lemma RemovedFirst(p: Prefix, j: Job)
    ensures var a := Unpack(p, j);
            && (j.dir in p.sources ==> j.dir !in a.trees)
            && a.toolchainStamp == p.toolchainStamp && a.versionStamp == p.versionStamp
            && a.featuresStamp == p.featuresStamp
  {
  }

  // ----- Any prefix at all, however it came about

  predicate Names(p: Prefix, t: Triple) {
    p.toolchainStamp == Some(t.toolchain) && p.featuresStamp == Some(t.features) && p.versionStamp == Some(t.version)
  }

  /** The three stamps, if they let a library pass, name every build tree that a run of the stamped version
      is pointed at. */
  ghost predicate Trustworthy(layout: Layout, p: Prefix) {
    p.library.Some? && p.versionStamp.Some? && Some("") !in {p.toolchainStamp, p.featuresStamp, p.versionStamp} ==>
      forall d :: d in p.trees && layout(p.versionStamp.value, d) ==> Names(p, p.trees[d])
  }

  /** A triple that passes the checks; where a stamp is missing it differs from `t`. */
  function Passing(p: Prefix, t: Triple): Triple
    requires p.versionStamp.Some?
  {
    Triple(if p.toolchainStamp.Some? then p.toolchainStamp.value else "x" + t.toolchain,
           if p.featuresStamp.Some? then p.featuresStamp.value else "x" + t.features,
           p.versionStamp.value)
  }

  lemma PassingPasses(p: Prefix, t: Triple)
    requires p.library.Some? && p.versionStamp.Some?
    requires Some("") !in {p.toolchainStamp, p.featuresStamp, p.versionStamp}
    ensures var u := Passing(p, t);
            && Checked(p, u, Completed) == p && Proper(u) && u.toolchain != ""
            && (u == t <==> Names(p, t))
  {
    assert |"x" + t.toolchain| == |t.toolchain| + 1 && |"x" + t.features| == |t.features| + 1;
  }

  /** Whatever state a prefix is in, killed runs included: every next run that completes leaves its own
      library exactly when the stamps are trustworthy. */
  lemma NextRunOwnIff(layout: Layout, p: Prefix)
    ensures (forall k :: Fits(layout, k) ==> LeavesOwn(p, k)) <==> Trustworthy(layout, p)
  {
    hide LeavesOwn;
    if Trustworthy(layout, p) {
      forall k | Fits(layout, k)
        ensures LeavesOwn(p, k)
      {
        TrustedRun(layout, p, k);
      }
    } else {
      var d :| d in p.trees && layout(p.versionStamp.value, d) && !Names(p, p.trees[d]);
      var u := Passing(p, p.trees[d]);
      PassingPasses(p, p.trees[d]);
      var k := Job(u, d, Completed);
      assert Fits(layout, k);
      assert !LeavesOwn(p, k) by { Reinstalls(p, k); }
    }
  }

  lemma Reinstalls(p: Prefix, k: Job)
    requires p.library.Some? && k.dir in p.trees && k.triple.toolchain != "" && k.stop == Completed
    requires Checked(p, k.triple, Completed) == p && p.trees[k.dir] != k.triple
    ensures !LeavesOwn(p, k)
  {
    hide Checked;
  }

  lemma TrustedRun(layout: Layout, p: Prefix, k: Job)
    requires Trustworthy(layout, p) && Fits(layout, k)
    ensures LeavesOwn(p, k)
  {
    var c := Checked(p, k.triple, k.stop);
    OnlyWhenCompleted(p, k);
    if k.stop == Completed && k.triple.toolchain != "" {
      if c.library.Some? {
        KeptMeansMatch(p, k.triple);
        hide Checked;
        assert k.dir in p.trees ==> p.trees[k.dir] == k.triple;
      } else {
        hide Checked;
        RebuildOwn(c, k);
      }
    }
  }

  lemma KeptMeansMatch(p: Prefix, t: Triple)
    requires Proper(t) && t.toolchain != "" && Checked(p, t, Completed).library.Some?
    ensures Checked(p, t, Completed) == p && p.versionStamp == Some(t.version)
    ensures p.toolchainStamp.None? || p.toolchainStamp == Some(t.toolchain)
    ensures p.featuresStamp.None? || p.featuresStamp == Some(t.features)
  {
    var a := CheckToolchain(p, t);
    var b := CheckFeatures(a, t);
    assert a == p && b == p;
  }

  lemma RebuildOwn(p: Prefix, k: Job)
    ensures Rebuild(p, k).completed ==> Rebuild(p, k).prefix.library == Some(k.triple)
  {
    hide Unpack;
  }

  lemma OnlyWhenCompleted(p: Prefix, k: Job)
    ensures Build(p, k).completed ==> k.stop == Completed && k.triple.toolchain != ""
  {
    hide Checked, Unpack;
  }

  /** A first run that is killed is forgotten by the next one, except between the last two stamps:
      the missing features stamp then counts as a match. */
  lemma FirstCrashIff(layout: Layout, j: Job)
    requires Proper(j.triple) && j.triple.toolchain != "" && Buildable(layout, j.triple.version, j.dir)
    ensures (forall k :: Fits(layout, k) ==> LeavesOwn(Build(EMPTY, j).prefix, k)) <==> j.stop != AfterVersionStamp
  {
    hide LeavesOwn, Fits;
    var p := Build(EMPTY, j).prefix;
    NextRunOwnIff(layout, p);
    FirstTree(j);
  }

  /** What a first run leaves behind: at most its own tree, and stamps only of its own triple. */
  lemma FirstTree(j: Job)
    requires j.triple.toolchain != "" && j.dir.name == Folder(j.triple.version)
    ensures var p := Build(EMPTY, j).prefix;
            && (p.library.Some? <==> Reaches(j.stop, AfterInstall))
            && (p.library.Some? ==> p.trees == map[j.dir := j.triple])
            && p.toolchainStamp == (if Reaches(j.stop, AfterToolchainStamp) then Some(j.triple.toolchain) else None)
            && p.versionStamp == (if Reaches(j.stop, AfterVersionStamp) then Some(j.triple.version) else None)
            && p.featuresStamp == (if j.stop == Completed then Some(j.triple.features) else None)
  {
  }
}
