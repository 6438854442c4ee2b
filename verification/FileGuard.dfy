/** The content-addressed freeze over the gate files: snapshot, check, and any history of both. */
module FileGuard {
  import opened Text

  type Path = string

  /** What `is_file` and `read_bytes` find at a path that exists as a file. */
  datatype File = Readable(content: Bytes) | Unreadable

  type Tree = map<Path, File>

  /** SHA-256 in hexadecimal. */
  type Hash = Bytes -> string

  // ---------------------------------------------------------------- the manifest

  datatype Json = Object(fields: map<string, Json>) | String(s: string) | Other

  datatype Manifest = NoFile | BadFile | Parsed(json: Json)

  /** What `update` writes. */
  function Dump(files: map<Path, string>): Json {
    Object(map["version" := Other, "files" := Object(map p | p in files :: String(files[p]))])
  }

  /** `_load_baseline`: every malformed shape reads as None. */
  function LoadBaseline(m: Manifest): Option<map<Path, string>> {
    if !m.Parsed? || !m.json.Object? || "files" !in m.json.fields then None
    else
      var files := m.json.fields["files"];
      if !files.Object? || exists p :: p in files.fields && !files.fields[p].String? then None
      else Some(map p | p in files.fields :: files.fields[p].s)
  }

  lemma LoadsWhatItDumps(files: map<Path, string>)
    ensures LoadBaseline(Parsed(Dump(files))) == Some(files)
  {
    var inner := Object(map p | p in files :: String(files[p]));
    assert Dump(files).fields["files"] == inner;
    assert forall p :: p in inner.fields ==> inner.fields[p] == String(files[p]);
    assert (map p | p in inner.fields :: inner.fields[p].s) == files;
  }

  /** The manifest is an object whose `files` is an object of strings only, those of the baseline. */
  ghost predicate IsBaseline(m: Manifest, baseline: map<Path, string>) {
    && m.Parsed? && m.json.Object? && "files" in m.json.fields && m.json.fields["files"].Object?
    && var files := m.json.fields["files"].fields;
       files.Keys == baseline.Keys && forall p :: p in files ==> files[p] == String(baseline[p])
  }

  lemma LoadIff(m: Manifest, baseline: map<Path, string>)
    ensures LoadBaseline(m) == Some(baseline) <==> IsBaseline(m, baseline)
  {
    if IsBaseline(m, baseline) {
      var files := m.json.fields["files"].fields;
      assert baseline == map p | p in files :: files[p].s;
    }
  }

  // ---------------------------------------------------------------- specification

  /** Declared by name, or present and matched by a glob. */
  predicate Protected(explicit: set<Path>, glob: Path -> bool, tree: Tree, p: Path) {
    p in explicit || (p in tree && glob(p))
  }

  predicate CanRead(tree: Tree, p: Path) {
    p in tree && tree[p].Readable?
  }

  lemma ExpectedIff(explicit: set<Path>, glob: Path -> bool, tree: Tree)
    ensures forall p :: p in Expected(explicit, glob, tree) <==> Protected(explicit, glob, tree, p)
  {
  }

  /** The baseline has this path, and the file can be read and hashes to what it says. */
  predicate Matches(hash: Hash, baseline: map<Path, string>, tree: Tree, p: Path) {
    p in baseline && CanRead(tree, p) && hash(tree[p].content) == baseline[p]
  }

  ghost predicate AllMatch(hash: Hash, explicit: set<Path>, glob: Path -> bool, tree: Tree,
                           baseline: map<Path, string>)
  {
    forall p :: p in baseline || Protected(explicit, glob, tree, p) ==> Matches(hash, baseline, tree, p)
  }

  /** Explicit files, whether or not they exist, and current matches of the globs. */
  function Expected(explicit: set<Path>, glob: Path -> bool, tree: Tree): set<Path> {
    explicit + set p | p in tree && glob(p)
  }

  predicate AllReadable(paths: set<Path>, tree: Tree) {
    forall p :: p in paths ==> p in tree && tree[p].Readable?
  }

  function Digests(hash: Hash, paths: set<Path>, tree: Tree): map<Path, string> {
    map p | p in paths && p in tree && tree[p].Readable? :: hash(tree[p].content)
  }

  function ProblemsIn(paths: set<Path>, tree: Tree): set<Path> {
    set p | p in paths && !(p in tree && tree[p].Readable?)
  }

  lemma OneMorePath(hash: Hash, paths: set<Path>, tree: Tree, p: Path)
    requires p !in paths
    ensures var readable := p in tree && tree[p].Readable?;
            && Digests(hash, paths + {p}, tree) ==
               (if readable then Digests(hash, paths, tree)[p := hash(tree[p].content)] else Digests(hash, paths, tree))
            && ProblemsIn(paths + {p}, tree) == ProblemsIn(paths, tree) + if readable then {} else {p}
  {
  }

  /** A snapshot has no problems exactly when every path is readable. */
  lemma ProblemsIffUnreadable(paths: set<Path>, tree: Tree)
    ensures ProblemsIn(paths, tree) == {} <==> AllReadable(paths, tree)
  {
    if ProblemsIn(paths, tree) == {} {
      assert forall p :: p in paths && !(p in tree && tree[p].Readable?) ==> p in ProblemsIn(paths, tree);
    }
  }

  datatype Drift = Removed | NotReadable | Unbaselined | Modified

  function Status(hash: Hash, baseline: map<Path, string>, tree: Tree, p: Path): Option<Drift> {
    if p !in tree then Some(Removed)
    else if tree[p].Unreadable? then Some(NotReadable)
    else if p !in baseline then Some(Unbaselined)
    else if hash(tree[p].content) != baseline[p] then Some(Modified)
    else None
  }

  /** Which kind of drift a path that does not match shows. */
  function Kind(baseline: map<Path, string>, tree: Tree, p: Path): (d: Drift)
    ensures d.Removed? <==> p !in tree
    ensures d.NotReadable? <==> p in tree && !CanRead(tree, p)
    ensures d.Unbaselined? <==> CanRead(tree, p) && p !in baseline
    ensures d.Modified? <==> CanRead(tree, p) && p in baseline
  {
    if p !in tree then Removed else if tree[p].Unreadable? then NotReadable
    else if p !in baseline then Unbaselined else Modified
  }

  lemma StatusIff(hash: Hash, baseline: map<Path, string>, tree: Tree, p: Path)
    ensures Status(hash, baseline, tree, p) ==
            if Matches(hash, baseline, tree, p) then None else Some(Kind(baseline, tree, p))
  {
  }

  function DriftOf(hash: Hash, baseline: map<Path, string>, paths: set<Path>, tree: Tree): map<Path, Drift> {
    map p | p in paths && Status(hash, baseline, tree, p).Some? :: Status(hash, baseline, tree, p).value
  }

  lemma OneMoreDrift(hash: Hash, baseline: map<Path, string>, paths: set<Path>, tree: Tree, p: Path)
    requires p !in paths
    ensures DriftOf(hash, baseline, paths + {p}, tree) ==
            var drift := DriftOf(hash, baseline, paths, tree);
            match Status(hash, baseline, tree, p) case Some(d) => drift[p := d] case None => drift
  {
    hide Status;
  }

  lemma DriftIff(hash: Hash, explicit: set<Path>, glob: Path -> bool, tree: Tree, baseline: map<Path, string>)
    ensures var drift := DriftOf(hash, baseline, baseline.Keys + Expected(explicit, glob, tree), tree);
            && (drift == map[] <==> AllMatch(hash, explicit, glob, tree, baseline))
            && forall p ::
                 && (p in drift <==>
                     (p in baseline || Protected(explicit, glob, tree, p)) && !Matches(hash, baseline, tree, p))
                 && (p in drift ==> drift[p] == Kind(baseline, tree, p))
  {
    ExpectedIff(explicit, glob, tree);
    var paths := baseline.Keys + Expected(explicit, glob, tree);
    var drift := DriftOf(hash, baseline, paths, tree);
    hide Expected, Protected;
    forall p
      ensures p in drift <==> p in paths && !Matches(hash, baseline, tree, p)
      ensures p in drift ==> drift[p] == Kind(baseline, tree, p)
    {
      StatusIff(hash, baseline, tree, p);
    }
    hide DriftOf, Status, Matches;
    if AllMatch(hash, explicit, glob, tree, baseline) {
      assert drift.Keys == {};
    }
  }

  function CheckCode(hash: Hash, explicit: set<Path>, glob: Path -> bool, tree: Tree, m: Manifest): int {
    match LoadBaseline(m)
    case None => 2
    case Some(baseline) =>
      if DriftOf(hash, baseline, baseline.Keys + Expected(explicit, glob, tree), tree) == map[] then 0 else 1
  }

  // ---------------------------------------------------------------- the two commands

  class Guard {
    const hash: Hash
    const explicit: set<Path>
    const glob: Path -> bool
    var tree: Tree
    var manifest: Manifest

    constructor (hash: Hash, explicit: set<Path>, glob: Path -> bool, tree: Tree)
      ensures this.hash == hash && this.explicit == explicit && this.glob == glob
      ensures this.tree == tree && manifest == NoFile
    {
      this.hash := hash;
      this.explicit := explicit;
      this.glob := glob;
      this.tree := tree;
      manifest := NoFile;
    }

    /** Refuses, changing nothing, unless every expected file is readable and the manifest writable. */
    method Update(writable: bool) returns (code: int, problems: set<Path>)
      modifies this`manifest
      ensures code == 0 <==> writable && forall p :: Protected(explicit, glob, tree, p) ==> CanRead(tree, p)
      ensures code == 0 || (code == 1 && manifest == old(manifest))
      ensures forall p :: p in problems <==> Protected(explicit, glob, tree, p) && !CanRead(tree, p)
      ensures code == 0 ==>
                exists baseline: map<Path, string> ::
                  && IsBaseline(manifest, baseline) && manifest.json.fields.Keys == {"version", "files"}
                  && (forall p :: p in baseline <==> Protected(explicit, glob, tree, p))
                  && (forall p :: p in baseline ==> CanRead(tree, p) && baseline[p] == hash(tree[p].content))
      ensures manifest == Step(hash, explicit, glob, State(tree, old(manifest), None), Snapshot(writable)).manifest
    {
      ExpectedIff(explicit, glob, tree);
      ProblemsIffUnreadable(Expected(explicit, glob, tree), tree);
      var expected := Expected(explicit, glob, tree);
      var files: map<Path, string> := map[];
      problems := {};
      var todo := expected;
      ghost var done: set<Path> := {};
      while todo != {}
        invariant todo == expected - done && done <= expected
        invariant problems == ProblemsIn(done, tree)
        invariant files == Digests(hash, done, tree) && manifest == old(manifest)
        decreases todo
      {
        hide Digests, ProblemsIn, Expected, Dump;
        var rel :| rel in todo;
        OneMorePath(hash, done, tree, rel);
        done := done + {rel};
        if rel in tree && tree[rel].Readable? {
          files := files[rel := hash(tree[rel].content)];
        } else {
          problems := problems + {rel};
        }
        todo := todo - {rel};
      }
      assert done == expected;
      if problems != {} || !writable {
        return 1, problems;
      }
      manifest := Parsed(Dump(files));
      LoadsWhatItDumps(files);
      LoadIff(manifest, files);
      code := 0;
    }

    method Check() returns (code: int, drift: map<Path, Drift>)
      ensures code == CheckCode(hash, explicit, glob, tree, manifest)
      ensures code == 2 <==> forall baseline :: !IsBaseline(manifest, baseline)
      ensures code == 0 <==>
                exists baseline :: IsBaseline(manifest, baseline) && AllMatch(hash, explicit, glob, tree, baseline)
      ensures forall baseline :: IsBaseline(manifest, baseline) ==>
                forall p ::
                  && (p in drift <==>
                      (p in baseline || Protected(explicit, glob, tree, p)) && !Matches(hash, baseline, tree, p))
                  && (p in drift ==> drift[p] == Kind(baseline, tree, p))
    {
      drift := map[];
      forall baseline
        ensures LoadBaseline(manifest) == Some(baseline) <==> IsBaseline(manifest, baseline)
      {
        LoadIff(manifest, baseline);
      }
      hide IsBaseline, LoadBaseline, Expected, Protected, Matches, AllMatch;
      var loaded := LoadBaseline(manifest);
      if loaded.None? {
        return 2, drift;
      }
      var baseline := loaded.value;
      var paths := baseline.Keys + Expected(explicit, glob, tree);
      var todo := paths;
      assert drift == DriftOf(hash, baseline, {}, tree);
      assert paths - todo == {};
      hide DriftOf;
      while todo != {}
        invariant todo <= paths
        invariant drift == DriftOf(hash, baseline, paths - todo, tree)
        decreases todo
      {
        var rel :| rel in todo;
        var before := todo;
        todo := todo - {rel};
        assert paths - todo == (paths - before) + {rel};
        OneMoreDrift(hash, baseline, paths - before, tree, rel);
        if rel !in tree {
          drift := drift[rel := Removed];
        } else if tree[rel].Unreadable? {
          drift := drift[rel := NotReadable];
        } else if rel !in baseline {
          drift := drift[rel := Unbaselined];
        } else if hash(tree[rel].content) != baseline[rel] {
          drift := drift[rel := Modified];
        }
      }
      assert paths - todo == paths;
      DriftIff(hash, explicit, glob, tree, baseline);
      code := if drift == map[] then 0 else 1;
    }
  }

  // ---------------------------------------------------------------- any history

  /** Edits of the working tree, and snapshots taken in it. */
  datatype Event = Write(p: Path, content: Bytes) | Lock(p: Path) | Remove(p: Path) | Snapshot(writable: bool)

  /** The tree, the manifest, and the contents recorded by the last snapshot that succeeded. */
  datatype State = State(tree: Tree, manifest: Manifest, last: Option<map<Path, Bytes>>)

  function Contents(paths: set<Path>, tree: Tree): map<Path, Bytes> {
    map p | p in paths && p in tree && tree[p].Readable? :: tree[p].content
  }

  function Step(hash: Hash, explicit: set<Path>, glob: Path -> bool, s: State, e: Event): State {
    match e
    case Write(p, content) => s.(tree := s.tree[p := Readable(content)])
    case Lock(p) => if p in s.tree then s.(tree := s.tree[p := Unreadable]) else s
    case Remove(p) => s.(tree := s.tree - {p})
    case Snapshot(writable) =>
      var paths := Expected(explicit, glob, s.tree);
      if AllReadable(paths, s.tree) && writable
      then State(s.tree, Parsed(Dump(Digests(hash, paths, s.tree))), Some(Contents(paths, s.tree)))
      else s
  }

  function Run(hash: Hash, explicit: set<Path>, glob: Path -> bool, s: State, events: seq<Event>): State
    decreases |events|
  {
    if events == [] then s
    else Run(hash, explicit, glob, Step(hash, explicit, glob, s, events[0]), events[1..])
  }

  /** The manifest holds the digests of the recorded contents. */
  predicate Recorded(hash: Hash, s: State) {
    match s.last
    case None => s.manifest == NoFile
    case Some(snap) => s.manifest == Parsed(Dump(map p | p in snap :: hash(snap[p])))
  }

  lemma StepKeepsRecorded(hash: Hash, explicit: set<Path>, glob: Path -> bool, s: State, e: Event)
    requires Recorded(hash, s)
    ensures Recorded(hash, Step(hash, explicit, glob, s, e))
  {
    if e.Snapshot? {
      var paths := Expected(explicit, glob, s.tree);
      var snap := Contents(paths, s.tree);
      assert Digests(hash, paths, s.tree) == map p | p in snap :: hash(snap[p]);
    }
  }

  lemma {:induction false} RunKeepsRecorded(hash: Hash, explicit: set<Path>, glob: Path -> bool, s: State,
                                            events: seq<Event>)
    requires Recorded(hash, s)
    ensures Recorded(hash, Run(hash, explicit, glob, s, events))
    decreases |events|
  {
    if events != [] {
      StepKeepsRecorded(hash, explicit, glob, s, events[0]);
      hide Recorded, Step;
      RunKeepsRecorded(hash, explicit, glob, Step(hash, explicit, glob, s, events[0]), events[1..]);
    }
  }

  /** No recorded content collides with what now stands at its path. */
  predicate NoCollision(hash: Hash, s: State) {
    s.last.Some? ==>
      forall p :: p in s.last.value && p in s.tree && s.tree[p].Readable? ==>
        (hash(s.tree[p].content) == hash(s.last.value[p]) ==> s.tree[p].content == s.last.value[p])
  }

  /** Every recorded path holds its recorded content and every protected path is recorded. */
  ghost predicate Clean(explicit: set<Path>, glob: Path -> bool, s: State)
    requires s.last.Some?
  {
    && (forall p :: Protected(explicit, glob, s.tree, p) ==> p in s.last.value)
    && (forall p :: p in s.last.value ==> p in s.tree && s.tree[p] == Readable(s.last.value[p]))
  }

  /** After any history of writes, removals, lost permissions and snapshots, refused ones included,
      `check` exits 0 exactly when a snapshot has succeeded, every expected path is in the last one, and
      every path in it holds the content it had then; it exits 2 exactly when none has succeeded. */
  lemma CheckIsExact(hash: Hash, explicit: set<Path>, glob: Path -> bool, tree: Tree, events: seq<Event>)
    requires NoCollision(hash, Run(hash, explicit, glob, State(tree, NoFile, None), events))
    ensures var s := Run(hash, explicit, glob, State(tree, NoFile, None), events);
            var code := CheckCode(hash, explicit, glob, s.tree, s.manifest);
            && (code == 0 <==> s.last.Some? && Clean(explicit, glob, s))
            && (code == 2 <==> s.last.None?)
  {
    RunKeepsRecorded(hash, explicit, glob, State(tree, NoFile, None), events);
    var s := Run(hash, explicit, glob, State(tree, NoFile, None), events);
    hide Run, Expected;
    if s.last.Some? {
      var snap := s.last.value;
      var baseline := map p | p in snap :: hash(snap[p]);
      LoadsWhatItDumps(baseline);
      assert baseline.Keys == snap.Keys;
      CleanIffNoDrift(hash, explicit, glob, s, baseline);
    }
  }

  lemma CleanIffNoDrift(hash: Hash, explicit: set<Path>, glob: Path -> bool, s: State, baseline: map<Path, string>)
    requires s.last.Some? && NoCollision(hash, s) && baseline == map p | p in s.last.value :: hash(s.last.value[p])
    ensures DriftOf(hash, baseline, baseline.Keys + Expected(explicit, glob, s.tree), s.tree) == map[] <==>
            Clean(explicit, glob, s)
  {
    DriftIff(hash, explicit, glob, s.tree, baseline);
    var snap := s.last.value;
    hide DriftOf, Expected, Protected;
    forall p
      ensures Matches(hash, baseline, s.tree, p) <==> p in snap && p in s.tree && s.tree[p] == Readable(snap[p])
    {
    }
    hide Matches;
  }

  /** What a snapshot of a readable tree leaves: a baseline of exactly the protected paths. */
  lemma SnapshotBaseline(hash: Hash, explicit: set<Path>, glob: Path -> bool, s: State)
    returns (baseline: map<Path, string>)
    requires forall p :: Protected(explicit, glob, s.tree, p) ==> CanRead(s.tree, p)
    ensures var s1 := Step(hash, explicit, glob, s, Snapshot(true));
            s1.tree == s.tree && LoadBaseline(s1.manifest) == Some(baseline)
    ensures forall p :: p in baseline <==> Protected(explicit, glob, s.tree, p)
    ensures forall p :: p in baseline ==> CanRead(s.tree, p) && baseline[p] == hash(s.tree[p].content)
  {
    ExpectedIff(explicit, glob, s.tree);
    baseline := Digests(hash, Expected(explicit, glob, s.tree), s.tree);
    LoadsWhatItDumps(baseline);
    hide Expected, LoadBaseline, Dump, Protected;
  }

  lemma CheckCodeIff(hash: Hash, explicit: set<Path>, glob: Path -> bool, tree: Tree, m: Manifest,
                     baseline: map<Path, string>)
    requires LoadBaseline(m) == Some(baseline)
    ensures CheckCode(hash, explicit, glob, tree, m) == if AllMatch(hash, explicit, glob, tree, baseline) then 0 else 1
  {
    DriftIff(hash, explicit, glob, tree, baseline);
    hide LoadBaseline, DriftOf, Expected, AllMatch;
  }

  /** Right after a snapshot `check` passes; one edit later it still does exactly if the edit leaves a recorded
      path its digest, and makes no path protected that is not recorded. */
  lemma EditNoticedIff(hash: Hash, explicit: set<Path>, glob: Path -> bool, s: State, e: Event)
    requires !e.Snapshot? && forall p :: Protected(explicit, glob, s.tree, p) ==> CanRead(s.tree, p)
    ensures var s1 := Step(hash, explicit, glob, s, Snapshot(true));
            var s2 := Step(hash, explicit, glob, s1, e);
            var recorded := Protected(explicit, glob, s.tree, e.p);
            && CheckCode(hash, explicit, glob, s1.tree, s1.manifest) == 0
            && CheckCode(hash, explicit, glob, s2.tree, s2.manifest) ==
               if (if recorded then e.Write? && CanRead(s.tree, e.p) && hash(e.content) == hash(s.tree[e.p].content)
                   else e.Write? ==> !glob(e.p))
               then 0 else 1
  {
    var s1 := Step(hash, explicit, glob, s, Snapshot(true));
    var s2 := Step(hash, explicit, glob, s1, e);
    var baseline := SnapshotBaseline(hash, explicit, glob, s);
    CheckCodeIff(hash, explicit, glob, s1.tree, s1.manifest, baseline);
    CheckCodeIff(hash, explicit, glob, s2.tree, s2.manifest, baseline);
    assert s2.manifest == s1.manifest;
    assert forall p :: p != e.p ==> (p in s2.tree <==> p in s.tree) && (p in s.tree ==> s2.tree[p] == s.tree[p]);
    assert e.Write? ==> s2.tree[e.p] == Readable(e.content);
    assert e.Remove? ==> e.p !in s2.tree;
    assert e.Lock? ==> !CanRead(s2.tree, e.p);
    hide CheckCode, Step, LoadBaseline;
    forall p | p != e.p
      ensures Protected(explicit, glob, s2.tree, p) <==> Protected(explicit, glob, s.tree, p)
      ensures p in baseline ==> Matches(hash, baseline, s2.tree, p)
    {
    }
    assert Matches(hash, baseline, s2.tree, e.p) <==>
           e.p in baseline && e.Write? && hash(e.content) == hash(s.tree[e.p].content);
  }
}
