/** The persistent cache of raw metrics: what a call returns over any history of calls, edits, version
    changes, damaged files and interrupted calls. */
module MetricCache {
  /** A dependency as its signature shows it. The content of a dependency is taken to be determined by its
      stamp, so a builder is a function of stamps. */
  datatype Stamp = Stamp(path: string, size: nat, mtime: int)

  type Metrics = int

  // Dataset, run, code version and dependencies give the metrics.
  type Builder = (string, string, int, seq<Stamp>) -> Metrics

  // A file of the cache directory; a damaged file fails to load.
  datatype CacheFile = Damaged | Payload(version: int, dependencies: seq<Stamp>, metrics: Metrics)

  type Directory = map<string, CacheFile>

  function FileName(dataset: string, run: string): string { dataset + "_" + run + ".pkl" }

  datatype Request = Request(dataset: string, run: string, version: int, dependencies: seq<Stamp>)

  predicate Hit(dir: Directory, rebuild: bool, q: Request) {
    var name := FileName(q.dataset, q.run);
    name in dir && !rebuild && dir[name].Payload? && dir[name].version == q.version && dir[name].dependencies == q.dependencies
  }

  class RawMetricCache {
    const rebuild: bool
    const build: Builder
    var directory: Directory

    constructor (rebuild: bool, build: Builder)
      ensures this.rebuild == rebuild && this.build == build && directory == map[]
    {
      this.rebuild, this.build, this.directory := rebuild, build, map[];
    }

    /** get_or_build, when it completes: the cached metrics on a hit, otherwise freshly built ones, which
        replace the file. */
    method GetOrBuild(q: Request) returns (metrics: Metrics)
      modifies this
      ensures metrics == Answer(build, rebuild, old(directory), q)
      ensures directory == Saved(build, rebuild, old(directory), q)
    {
      var cachePath := FileName(q.dataset, q.run);
      if cachePath in directory && !rebuild {
        match directory[cachePath] {
          case Damaged =>
          case Payload(version, dependencies, cached) =>
            if version == q.version && dependencies == q.dependencies {
              return cached;
            }
        }
      }
      metrics := build(q.dataset, q.run, q.version, q.dependencies);
      directory := directory[cachePath := Payload(q.version, q.dependencies, metrics)];
    }
  }

  function Fresh(build: Builder, q: Request): Metrics { build(q.dataset, q.run, q.version, q.dependencies) }

  function Answer(build: Builder, rebuild: bool, dir: Directory, q: Request): Metrics {
    if Hit(dir, rebuild, q) then dir[FileName(q.dataset, q.run)].metrics else Fresh(build, q)
  }

  function Saved(build: Builder, rebuild: bool, dir: Directory, q: Request): Directory {
    if Hit(dir, rebuild, q) then dir
    else dir[FileName(q.dataset, q.run) := Payload(q.version, q.dependencies, Fresh(build, q))]
  }

  /** A saved file is used by the next call for the same metrics that does not ask to rebuild, which then changes
      nothing; a call that asks to rebuild gets fresh metrics whatever the directory holds. */
  lemma SavedIsUsed(build: Builder, rebuild: bool, dir: Directory, q: Request)
    ensures var dir' := Saved(build, rebuild, dir, q);
            && Answer(build, false, dir', q) == Answer(build, rebuild, dir, q)
            && Saved(build, false, dir', q) == dir' && FileName(q.dataset, q.run) in dir'
    ensures Answer(build, true, dir, q) == Fresh(build, q)
    ensures Saved(build, true, dir, q)[FileName(q.dataset, q.run)] == Payload(q.version, q.dependencies, Fresh(build, q))
  {
  }

  // ---------- histories ----------

  /** What can happen to the cache directory: a call that completes, one that is interrupted before its
      file is put in place, or damage to a file. Dependencies and the code version change between calls by
      coming with each request. */
  datatype Event = Completed(rebuild: bool, request: Request) | Interrupted(request: Request) | Damage(name: string)

  function Step(build: Builder, dir: Directory, e: Event): Directory {
    match e
    case Completed(rebuild, q) => Saved(build, rebuild, dir, q)
    case Interrupted(_) => dir
    case Damage(name) => if name in dir then dir[name := Damaged] else dir
  }

  function After(build: Builder, dir: Directory, history: seq<Event>): Directory {
    if history == [] then dir else Step(build, After(build, dir, history[..|history| - 1]), history[|history| - 1])
  }

  /** The two requests are for different metrics, but a file saved for one is accepted for the other. */
  predicate Clash(q: Request, q': Request) {
    && FileName(q.dataset, q.run) == FileName(q'.dataset, q'.run) && q.version == q'.version && q.dependencies == q'.dependencies
    && (q.dataset != q'.dataset || q.run != q'.run)
  }

  ghost predicate NoClash(qs: iset<Request>) {
    forall q, q' :: q in qs && q' in qs ==> !Clash(q, q')
  }

  // Histories whose completed calls make only these requests.
  ghost predicate Within(qs: iset<Request>, history: seq<Event>) {
    forall i :: 0 <= i < |history| && history[i].Completed? ==> history[i].request in qs
  }

  ghost predicate Right(build: Builder, history: seq<Event>, rebuild: bool, q: Request) {
    Answer(build, rebuild, After(build, map[], history), q) == Fresh(build, q)
  }

  /** After any history a call is answered as the builder would on the present dependencies and version. */
  ghost predicate Transparent(qs: iset<Request>) {
    forall build, history, rebuild, q :: q in qs && Within(qs, history) ==> Right(build, history, rebuild, q)
  }

  /** Every loadable file holds what a fresh build gives for each of the requests that would accept it. */
  ghost predicate Honest(build: Builder, qs: iset<Request>, dir: Directory) {
    forall q :: q in qs && Hit(dir, false, q) ==> dir[FileName(q.dataset, q.run)].metrics == Fresh(build, q)
  }

  lemma StepKeepsHonest(build: Builder, qs: iset<Request>, dir: Directory, e: Event)
    requires NoClash(qs) && Honest(build, qs, dir) && (e.Completed? ==> e.request in qs)
    ensures Honest(build, qs, Step(build, dir, e))
  {
    var dir' := Step(build, dir, e);
    forall q | q in qs && Hit(dir', false, q)
      ensures dir'[FileName(q.dataset, q.run)].metrics == Fresh(build, q)
    {
      var name := FileName(q.dataset, q.run);
      if name in dir && dir[name] == dir'[name] {
        assert Hit(dir, false, q);
      } else {
        assert !Clash(q, e.request);
      }
    }
  }

  lemma {:induction false} HistoryKeepsHonest(build: Builder, qs: iset<Request>, history: seq<Event>)
    requires NoClash(qs) && Within(qs, history)
    ensures Honest(build, qs, After(build, map[], history))
  {
    if history != [] {
      var front := history[..|history| - 1];
      HistoryKeepsHonest(build, qs, front);
      StepKeepsHonest(build, qs, After(build, map[], front), history[|history| - 1]);
    }
  }

  lemma NoClashIsRight(build: Builder, qs: iset<Request>, history: seq<Event>, rebuild: bool, q: Request)
    requires NoClash(qs) && Within(qs, history) && q in qs
    ensures Right(build, history, rebuild, q)
  {
    HistoryKeepsHonest(build, qs, history);
    var dir := After(build, map[], history);
    if Hit(dir, rebuild, q) {
      assert Hit(dir, false, q);
    }
  }

  /** Of two requests that clash the second is answered with the metrics of the first. */
  lemma ClashAnswersOther(build: Builder, q: Request, q': Request)
    requires Clash(q, q')
    ensures Answer(build, false, After(build, map[], [Completed(false, q)]), q') == Fresh(build, q)
  {
    var history := [Completed(false, q)];
    assert history[..0] == [];
    assert After(build, map[], history) == Saved(build, false, map[], q);
  }

  /** The cache is transparent for a set of requests, for every builder and over every history of them, exactly
      when no two of them clash. */
  lemma TransparentExactlyWhen(qs: iset<Request>)
    ensures Transparent(qs) <==> NoClash(qs)
  {
    if NoClash(qs) {
      forall build, history, rebuild, q | q in qs && Within(qs, history)
        ensures Right(build, history, rebuild, q)
      {
        NoClashIsRight(build, qs, history, rebuild, q);
      }
    } else {
      var q, q' :| q in qs && q' in qs && Clash(q, q');
      var build: Builder := (dataset, run, _, _) => if dataset == q.dataset && run == q.run then 1 else 0;
      var history := [Completed(false, q)];
      ClashAnswersOther(build, q, q');
      assert Within(qs, history) && !Right(build, history, false, q');
    }
  }

  // ---------- file names ----------

  // One dataset is the other with a suffix that the other's run begins with.
  ghost predicate Shifted(dataset: string, run: string, dataset': string, run': string) {
    exists s :: dataset' == dataset + "_" + s && run == s + "_" + run'
  }

  lemma StemOf(dataset: string, run: string, dataset': string, run': string)
    ensures FileName(dataset, run) == FileName(dataset', run') <==> dataset + "_" + run == dataset' + "_" + run'
  {
    var stem, stem' := dataset + "_" + run, dataset' + "_" + run';
    assert stem == (stem + ".pkl")[..|stem + ".pkl"| - 4];
    assert stem' == (stem' + ".pkl")[..|stem' + ".pkl"| - 4];
  }

  lemma LongerDataset(d: string, r: string, d': string, r': string)
    requires |d| < |d'| && d + "_" + r == d' + "_" + r'
    ensures Shifted(d, r, d', r')
  {
    var s, s' := d + "_" + r, d' + "_" + r';
    var k := d'[|d| + 1..];
    assert d == s[..|d|] == d'[..|d|] && d'[|d|] == s'[|d|] == '_';
    assert d' == d + "_" + k;
    assert r == s[|d| + 1..] && r' == s'[|d'| + 1..];
    assert s' == d + "_" + (k + "_" + r');
    assert s'[|d| + 1..] == k + "_" + r';
  }

  /** Two runs share a file exactly when they are the same or one dataset continues with an underscore and
      what the other's run begins with. */
  lemma FileNamesMeet(d: string, r: string, d': string, r': string)
    ensures FileName(d, r) == FileName(d', r') <==>
            (d == d' && r == r') || Shifted(d, r, d', r') || Shifted(d', r', d, r)
  {
    StemOf(d, r, d', r');
    if s :| d' == d + "_" + s && r == s + "_" + r' {
      assert d + "_" + r == d' + "_" + r';
    } else if s :| d == d' + "_" + s && r' == s + "_" + r {
      assert d + "_" + r == d' + "_" + r';
    } else if d + "_" + r == d' + "_" + r' {
      if |d| < |d'| {
        LongerDataset(d, r, d', r');
      } else if |d'| < |d| {
        LongerDataset(d', r', d, r);
      } else {
        var s, s' := d + "_" + r, d' + "_" + r';
        assert d == s[..|d|] && d' == s'[..|d|] && r == s[|d| + 1..] && r' == s'[|d| + 1..];
      }
    }
  }

  lemma ShiftedHasUnderscore(d: string, r: string, d': string, r': string)
    ensures Shifted(d, r, d', r') ==> '_' in d'
  {
    if s :| d' == d + "_" + s && r == s + "_" + r' {
      assert d'[|d|] == '_';
    }
  }

  // Requests for a dataset without an underscore.
  predicate Plain(q: Request) { '_' !in q.dataset }

  /** Datasets without an underscore never clash. */
  lemma FileNameDecides(q: Request, q': Request)
    requires Plain(q) && Plain(q') && FileName(q.dataset, q.run) == FileName(q'.dataset, q'.run)
    ensures q.dataset == q'.dataset && q.run == q'.run
  {
    FileNamesMeet(q.dataset, q.run, q'.dataset, q'.run);
    ShiftedHasUnderscore(q.dataset, q.run, q'.dataset, q'.run);
    ShiftedHasUnderscore(q'.dataset, q'.run, q.dataset, q.run);
  }

  /** So for such datasets, which are the ones in use, the cache is transparent. */
  lemma CacheIsTransparent()
    ensures Transparent(iset q | Plain(q))
  {
    var plain := iset q | Plain(q);
    forall q, q' | q in plain && q' in plain
      ensures !Clash(q, q')
    {
      if Clash(q, q') {
        FileNameDecides(q, q');
      }
    }
    TransparentExactlyWhen(plain);
  }

  /** With an underscore in a dataset two different runs can share a file: the second is then answered with
      the metrics of the first, whenever version and dependencies agree. */
  lemma SharedFileNameAnswersWrongRun(build: Builder, version: int, dependencies: seq<Stamp>)
    requires build("a_b", "c", version, dependencies) != build("a", "b_c", version, dependencies)
    ensures var first, second := Request("a_b", "c", version, dependencies), Request("a", "b_c", version, dependencies);
            Clash(first, second) && !Right(build, [Completed(false, first)], false, second)
  {
    var first, second := Request("a_b", "c", version, dependencies), Request("a", "b_c", version, dependencies);
    assert FileName("a_b", "c") == FileName("a", "b_c");
    ClashAnswersOther(build, first, second);
  }
}
