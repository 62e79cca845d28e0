// The strings the two caches are keyed by.
//
// The counter key carries no job/run tag, and it is built from free text (the
// repository and the labels), so two facts are separated here. Whatever the text
// contains, the key determines its `Group` (the text before the status, and the
// branch flag), its status and its conclusion: that is what makes the 40 keys of a
// group stand or fall together. Recovering the repository and the labels from the
// key needs colon-free repository names.
module CacheKeys {
  import opened Basics
  import opened Text
  import opened Telemetry

  type Pair = (Status, Conclusion)

  const PAIRS: set<Pair> := Rows(STATUSES)

  function Rows(statuses: set<Status>): set<Pair> {
    set s, c | s in statuses && c in CONCLUSIONS :: (s, c)
  }

  /** Everything in a counter key but the status and the conclusion. */
  datatype Group = Group(prefix: string, isMain: bool)

  function GroupOf(repo: string, labels: string, isMain: bool): Group {
    Group(repo + ":" + labels, isMain)
  }

  function CacheKey(repo: string, labels: string, status: Status, conclusion: Conclusion, isMain: bool): string {
    repo + ":" + labels + ":" + status.Name() + ":" + conclusion.Name() + ":" + BoolName(isMain)
  }

  function KeyOf(g: Group, p: Pair): string {
    g.prefix + ":" + p.0.Name() + ":" + p.1.Name() + ":" + BoolName(g.isMain)
  }

  lemma NamesAreColonFree(s: Status, c: Conclusion, b: bool)
    ensures ':' !in s.Name() && ':' !in c.Name() && ':' !in BoolName(b)
  {
  }

  lemma CacheKeyIsKeyOf(repo: string, labels: string, s: Status, c: Conclusion, isMain: bool)
    ensures CacheKey(repo, labels, s, c, isMain) == KeyOf(GroupOf(repo, labels, isMain), (s, c))
  {
  }

  /** A counter key belongs to one group, one status and one conclusion, whatever the text in it. */
  lemma KeyOfInjective(g: Group, p: Pair, h: Group, q: Pair)
    requires KeyOf(g, p) == KeyOf(h, q)
    ensures g == h && p == q
  {
    NamesAreColonFree(p.0, p.1, g.isMain);
    NamesAreColonFree(q.0, q.1, h.isMain);
    var a1, b1 := g.prefix + ":" + p.0.Name(), h.prefix + ":" + q.0.Name();
    LastFieldUnique(a1 + ":" + p.1.Name(), BoolName(g.isMain), b1 + ":" + q.1.Name(), BoolName(h.isMain), ':');
    LastFieldUnique(a1, p.1.Name(), b1, q.1.Name(), ':');
    LastFieldUnique(g.prefix, p.0.Name(), h.prefix, q.0.Name(), ':');
  }

  /** With colon-free repositories two counter keys are equal only if all five parts are, for any labels. */
  lemma CacheKeyInjective(r1: string, l1: string, s1: Status, c1: Conclusion, m1: bool,
                          r2: string, l2: string, s2: Status, c2: Conclusion, m2: bool)
    requires ':' !in r1 && ':' !in r2
    ensures CacheKey(r1, l1, s1, c1, m1) == CacheKey(r2, l2, s2, c2, m2)
            <==> r1 == r2 && l1 == l2 && s1 == s2 && c1 == c2 && m1 == m2
  {
    if CacheKey(r1, l1, s1, c1, m1) == CacheKey(r2, l2, s2, c2, m2) {
      CacheKeyIsKeyOf(r1, l1, s1, c1, m1);
      CacheKeyIsKeyOf(r2, l2, s2, c2, m2);
      KeyOfInjective(GroupOf(r1, l1, m1), (s1, c1), GroupOf(r2, l2, m2), (s2, c2));
      FirstFieldUnique(r1, l1, r2, l2, ':');
    }
  }

  /** Without that, a colon may move from one part to the next. */
  lemma ColonsMakeCacheKeysCollide(s: Status, c: Conclusion, isMain: bool)
    ensures CacheKey("a:b", "c", s, c, isMain) == CacheKey("a", "b:c", s, c, isMain)
  {
    assert "a:b" + ":" + "c" == "a" + ":" + "b:c";
  }

  // ---- Duration histogram keys ----

  function DurationKey(series: DurationSeries): string {
    match series
    case JobDuration(repo, workflow, job, labels, conclusion, isMain) =>
      "hist:job:" + (repo + ":" + (workflow + ":" + (job + ":"
      + (labels + ":" + conclusion + ":" + BoolName(isMain)))))
    case RunDuration(repo, workflow, conclusion, isMain) =>
      "hist:run:" + (repo + ":" + (workflow + ":" + conclusion + ":" + BoolName(isMain)))
  }

  /** The parts that have to be colon-free for the key to name its series: all but the free text in the middle. */
  predicate Separable(series: DurationSeries) {
    match series
    case JobDuration(repo, workflow, job, _, conclusion, _) =>
      ':' !in repo && ':' !in workflow && ':' !in job && ':' !in conclusion
    case RunDuration(repo, _, conclusion, _) =>
      ':' !in repo && ':' !in conclusion
  }

  /** Job and run histograms never share a key, whatever their text. */
  lemma JobAndRunKeysDiffer(x: DurationSeries, y: DurationSeries)
    requires x.JobDuration? && y.RunDuration?
    ensures DurationKey(x) != DurationKey(y)
  {
    assert DurationKey(x)[5] == 'j';
    assert DurationKey(y)[5] == 'r';
  }

  /** Jobs named "x:y" of workflow "w" and "y" of workflow "w:x" are added up in one histogram. */
  lemma ColonsMakeDurationKeysCollide(repo: string, labels: string, conclusion: string, isMain: bool)
    ensures DurationKey(JobDuration(repo, "w", "x:y", labels, conclusion, isMain))
            == DurationKey(JobDuration(repo, "w:x", "y", labels, conclusion, isMain))
  {
    assert "w" + ":" + "x:y" == "w:x" + ":" + "y";
  }

  lemma DurationKeyInjective(x: DurationSeries, y: DurationSeries)
    requires Separable(x) && Separable(y)
    ensures DurationKey(x) == DurationKey(y) <==> x == y
  {
    if DurationKey(x) == DurationKey(y) {
      if x.JobDuration? != y.JobDuration? {
        JobAndRunKeysDiffer(if x.JobDuration? then x else y, if x.JobDuration? then y else x);
      } else if x.JobDuration? {
        JobKeyInjective(x, y);
      } else {
        RunKeyInjective(x, y);
      }
    }
  }

  /** The text of a key after its fixed first nine bytes. */
  lemma AfterTag(tag: string, x: string, y: string)
    requires tag + x == tag + y
    ensures x == y
  {
    assert x == (tag + x)[|tag|..];
    assert y == (tag + y)[|tag|..];
  }

  /** A free text followed by two colon-free fields. */
  lemma TrailingFieldsUnique(a: string, c: string, m: bool, b: string, d: string, n: bool)
    requires ':' !in c && ':' !in d
    requires a + ":" + c + ":" + BoolName(m) == b + ":" + d + ":" + BoolName(n)
    ensures a == b && c == d && m == n
  {
    NamesAreColonFree(StatusUnset, ConclusionUnset, m);
    NamesAreColonFree(StatusUnset, ConclusionUnset, n);
    LastFieldUnique(a + ":" + c, BoolName(m), b + ":" + d, BoolName(n), ':');
    LastFieldUnique(a, c, b, d, ':');
  }

  lemma JobKeyInjective(x: DurationSeries, y: DurationSeries)
    requires x.JobDuration? && y.JobDuration? && Separable(x) && Separable(y)
    requires DurationKey(x) == DurationKey(y)
    ensures x == y
  {
    var x4 := x.labels + ":" + x.conclusion + ":" + BoolName(x.isMain);
    var y4 := y.labels + ":" + y.conclusion + ":" + BoolName(y.isMain);
    var x3, y3 := x.job + ":" + x4, y.job + ":" + y4;
    var x2, y2 := x.workflow + ":" + x3, y.workflow + ":" + y3;
    AfterTag("hist:job:", x.repo + ":" + x2, y.repo + ":" + y2);
    FirstFieldUnique(x.repo, x2, y.repo, y2, ':');
    FirstFieldUnique(x.workflow, x3, y.workflow, y3, ':');
    FirstFieldUnique(x.job, x4, y.job, y4, ':');
    TrailingFieldsUnique(x.labels, x.conclusion, x.isMain, y.labels, y.conclusion, y.isMain);
  }

  lemma RunKeyInjective(x: DurationSeries, y: DurationSeries)
    requires x.RunDuration? && y.RunDuration? && Separable(x) && Separable(y)
    requires DurationKey(x) == DurationKey(y)
    ensures x == y
  {
    var x2 := x.workflow + ":" + x.conclusion + ":" + BoolName(x.isMain);
    var y2 := y.workflow + ":" + y.conclusion + ":" + BoolName(y.isMain);
    AfterTag("hist:run:", x.repo + ":" + x2, y.repo + ":" + y2);
    FirstFieldUnique(x.repo, x2, y.repo, y2, ':');
    TrailingFieldsUnique(x.workflow, x.conclusion, x.isMain, y.workflow, y.conclusion, y.isMain);
  }

  // ---- The 40 keys of a group ----

  function GroupKeys(g: Group): set<string> {
    set p | p in PAIRS :: KeyOf(g, p)
  }

  function KeysOf(groups: set<Group>): set<string> {
    set g, p | g in groups && p in PAIRS :: KeyOf(g, p)
  }

  function Row(s: Status): set<Pair> {
    set c | c in CONCLUSIONS :: (s, c)
  }

  lemma RowCount(s: Status)
    ensures |Row(s)| == 8
  {
    assert Row(s) == {(s, Success), (s, Failure), (s, Cancelled), (s, Neutral),
                      (s, Null), (s, Skipped), (s, TimedOut), (s, ActionRequired)};
  }

  lemma {:induction false} RowsCount(statuses: set<Status>)
    ensures |Rows(statuses)| == 8 * |statuses|
    decreases |statuses|
  {
    if statuses != {} {
      var t :| t in statuses;
      RowsCount(statuses - {t});
      RowCount(t);
      assert Rows(statuses) == Rows(statuses - {t}) + Row(t);
    } else {
      assert Rows(statuses) == {};
    }
  }

  lemma StatusCount()
    ensures |STATUSES| == 5
  {
    assert STATUSES == {Completed, InProgress, Queued, Waiting, Aborted};
  }

  lemma PairCount()
    ensures |PAIRS| == 40
  {
    StatusCount();
    RowsCount(STATUSES);
  }

  lemma {:induction false} KeyImageCount(g: Group, ps: set<Pair>)
    ensures |set p | p in ps :: KeyOf(g, p)| == |ps|
    decreases |ps|
  {
    var image := set p | p in ps :: KeyOf(g, p);
    if ps != {} {
      var q :| q in ps;
      KeyImageCount(g, ps - {q});
      var smaller := set p | p in ps - {q} :: KeyOf(g, p);
      if KeyOf(g, q) in smaller {
        var p :| p in ps - {q} && KeyOf(g, p) == KeyOf(g, q);
        KeyOfInjective(g, p, g, q);
      }
      assert image == smaller + {KeyOf(g, q)};
    }
  }

  /** Distinct groups have disjoint sets of 40 keys each. */
  lemma {:induction false} KeysOfCount(groups: set<Group>)
    ensures |KeysOf(groups)| == 40 * |groups|
    decreases |groups|
  {
    if groups != {} {
      var g :| g in groups;
      KeysOfCount(groups - {g});
      PairCount();
      KeyImageCount(g, PAIRS);
      KeysOfAdd(groups - {g}, g);
      assert groups - {g} + {g} == groups;
    } else {
      assert KeysOf(groups) == {};
    }
  }

  lemma KeysOfAdd(groups: set<Group>, g: Group)
    ensures KeysOf(groups + {g}) == KeysOf(groups) + GroupKeys(g)
    ensures g !in groups ==> KeysOf(groups) !! GroupKeys(g)
  {
    if g !in groups {
      forall k | k in KeysOf(groups)
        ensures k !in GroupKeys(g)
      {
        var h, p :| h in groups && p in PAIRS && k == KeyOf(h, p);
        forall q | q in PAIRS
          ensures KeyOf(g, q) != k
        {
          if KeyOf(g, q) == k {
            KeyOfInjective(g, q, h, p);
          }
        }
      }
    }
  }

  lemma KeyMembership(groups: set<Group>, g: Group, p: Pair)
    requires p in PAIRS
    ensures KeyOf(g, p) in KeysOf(groups) <==> g in groups
  {
    if KeyOf(g, p) in KeysOf(groups) {
      var h, q :| h in groups && q in PAIRS && KeyOf(h, q) == KeyOf(g, p);
      KeyOfInjective(g, p, h, q);
    }
  }
}
