// When the keys of the two caches confuse what they should tell apart. Keys are built from
// free text separated by colons; these are the exact conditions under which text containing
// colons makes two counters, or two histograms, share a key.
module KeyCollisions {
  import opened Basics
  import opened Text
  import opened Telemetry
  import opened CacheKeys
  import opened Labels

  // ---- The label strings there are ----

  /** Label strings are lower-case. */
  lemma LabelStringIsLower(labels: seq<string>)
    ensures Lower(LabelString(labels)) == LabelString(labels)
  {
    if labels == [] {
      assert Lower(NO_LABELS) == NO_LABELS;
    } else {
      var lowered := LowerAll(labels);
      SortProps(lowered);
      LowerJoin(Sort(lowered));
      SortedStaysLower(labels, Sort(lowered));
    }
  }

  lemma SortedStaysLower(labels: seq<string>, sorted: seq<string>)
    requires multiset(sorted) == multiset(LowerAll(labels))
    ensures LowerAll(sorted) == sorted
  {
    forall i | 0 <= i < |sorted|
      ensures Lower(sorted[i]) == sorted[i]
    {
      assert sorted[i] in multiset(sorted);
      var j :| 0 <= j < |labels| && LowerAll(labels)[j] == sorted[i];
      LowerIdempotent(labels[j]);
    }
  }

  /** And every lower-case text is the label string of some labels. */
  lemma LabelStringOfOne(s: string)
    requires Lower(s) == s
    ensures LabelString([s]) == s
  {
    assert LowerAll([s]) == [s];
    SortOne(s);
  }

  // ---- Free text after a prefix ----

  /** One prefix continues the other with text that has no capital letters, as label strings do not. */
  predicate Overlaps(p: string, q: string) {
    || (p <= q && Lower(q[|p|..]) == q[|p|..])
    || (q <= p && Lower(p[|q|..]) == p[|q|..])
  }

  ghost predicate SomeLabelsMeet(p: string, q: string) {
    exists a, b :: p + LabelString(a) == q + LabelString(b)
  }

  lemma MeetingOverlaps(p: string, x: string, q: string, y: string)
    requires p + x == q + y && |p| <= |q| && Lower(x) == x
    ensures p <= q && Lower(q[|p|..]) == q[|p|..]
  {
    var rest := q[|p|..];
    assert p == (p + x)[..|p|] && q == (q + y)[..|q|];
    assert q == p + rest;
    AfterTag(p, x, rest + y) by {
      assert p + (rest + y) == p + rest + y;
    }
    forall i | 0 <= i < |rest|
      ensures Lower(rest)[i] == rest[i]
    {
      assert x[i] == rest[i] && Lower(x)[i] == LowerChar(x[i]);
    }
  }

  lemma OverlapsMeet(p: string, q: string)
    requires p <= q && Lower(q[|p|..]) == q[|p|..]
    ensures p + LabelString([q[|p|..]]) == q + LabelString([""])
  {
    LabelStringOfOne(q[|p|..]);
    LabelStringOfOne("");
  }

  lemma SomeLabelsMeetIff(p: string, q: string)
    ensures SomeLabelsMeet(p, q) <==> Overlaps(p, q)
  {
    if SomeLabelsMeet(p, q) {
      var a, b :| p + LabelString(a) == q + LabelString(b);
      LabelStringIsLower(a);
      LabelStringIsLower(b);
      if |p| <= |q| {
        MeetingOverlaps(p, LabelString(a), q, LabelString(b));
      } else {
        MeetingOverlaps(q, LabelString(b), p, LabelString(a));
      }
    }
    if p <= q && Lower(q[|p|..]) == q[|p|..] {
      OverlapsMeet(p, q);
    }
    if q <= p && Lower(p[|q|..]) == p[|q|..] {
      OverlapsMeet(q, p);
    }
  }

  // ---- Counter keys ----

  /** Whatever the text, counter keys agree exactly when the text before the status and the three other parts do. */
  lemma CacheKeyEqualIff(r1: string, l1: string, s1: Status, c1: Conclusion, m1: bool,
                         r2: string, l2: string, s2: Status, c2: Conclusion, m2: bool)
    ensures CacheKey(r1, l1, s1, c1, m1) == CacheKey(r2, l2, s2, c2, m2)
            <==> r1 + ":" + l1 == r2 + ":" + l2 && s1 == s2 && c1 == c2 && m1 == m2
  {
    CacheKeyIsKeyOf(r1, l1, s1, c1, m1);
    CacheKeyIsKeyOf(r2, l2, s2, c2, m2);
    if CacheKey(r1, l1, s1, c1, m1) == CacheKey(r2, l2, s2, c2, m2) {
      KeyOfInjective(GroupOf(r1, l1, m1), (s1, c1), GroupOf(r2, l2, m2), (s2, c2));
    }
  }

  /** What a counter key of a repository is made of. */
  datatype Parts = Parts(labels: seq<string>, status: Status, conclusion: Conclusion, isMain: bool) {
    function KeyIn(repo: string): string {
      CacheKey(repo, LabelString(labels), status, conclusion, isMain)
    }
  }

  ghost predicate SomeCountersCollide(r1: string, r2: string) {
    exists x: Parts, y: Parts :: x.KeyIn(r1) == y.KeyIn(r2)
  }

  lemma KeyInEqualIff(r1: string, x: Parts, r2: string, y: Parts)
    ensures x.KeyIn(r1) == y.KeyIn(r2)
            <==> && r1 + ":" + LabelString(x.labels) == r2 + ":" + LabelString(y.labels)
                 && x.status == y.status && x.conclusion == y.conclusion && x.isMain == y.isMain
  {
    CacheKeyEqualIff(r1, LabelString(x.labels), x.status, x.conclusion, x.isMain,
                     r2, LabelString(y.labels), y.status, y.conclusion, y.isMain);
  }

  /**
   * Two repositories have counters that share a key, for some labels, if and only if one name with a colon
   * after it begins the other, and the rest has no capital letters.
   */
  lemma RepositoriesCollideIff(r1: string, r2: string)
    requires r1 != r2
    ensures SomeCountersCollide(r1, r2) <==> Overlaps(r1 + ":", r2 + ":")
  {
    SomeLabelsMeetIff(r1 + ":", r2 + ":");
    if SomeCountersCollide(r1, r2) {
      var x: Parts, y: Parts :| x.KeyIn(r1) == y.KeyIn(r2);
      KeyInEqualIff(r1, x, r2, y);
      assert SomeLabelsMeet(r1 + ":", r2 + ":");
    }
    if SomeLabelsMeet(r1 + ":", r2 + ":") {
      var a, b :| r1 + ":" + LabelString(a) == r2 + ":" + LabelString(b);
      KeyInEqualIff(r1, Parts(a, Completed, Success, true), r2, Parts(b, Completed, Success, true));
    }
  }

  /** Overlapping needs a colon in a repository name. */
  lemma ColonFreeRepositoriesApart(r1: string, r2: string)
    requires r1 != r2 && ':' !in r1 && ':' !in r2
    ensures !Overlaps(r1 + ":", r2 + ":")
  {
    if r1 + ":" <= r2 + ":" {
      ColonInside(r1, r2);
    }
    if r2 + ":" <= r1 + ":" {
      ColonInside(r2, r1);
    }
  }

  lemma ColonInside(r1: string, r2: string)
    requires r1 + ":" <= r2 + ":"
    ensures r1 == r2 || ':' in r2
  {
    assert (r2 + ":")[|r1|] == (r1 + ":")[|r1|] == ':';
    if |r1| < |r2| {
      assert r2[|r1|] == ':';
    } else {
      assert r1 == (r1 + ":")[..|r1|] && r2 == (r2 + ":")[..|r2|];
    }
  }

  // ---- Histogram keys of jobs ----

  function JobPrefix(repo: string, workflow: string, job: string): string {
    repo + ":" + workflow + ":" + job + ":"
  }

  lemma JobKeyParts(x: DurationSeries)
    requires x.JobDuration?
    ensures DurationKey(x)
            == "hist:job:"
               + (JobPrefix(x.repo, x.workflow, x.job) + x.labels + ":" + x.conclusion + ":" + BoolName(x.isMain))
  {
    var rest := x.labels + ":" + x.conclusion + ":" + BoolName(x.isMain);
    assert x.repo + ":" + (x.workflow + ":" + (x.job + ":" + rest)) == JobPrefix(x.repo, x.workflow, x.job) + rest;
    assert JobPrefix(x.repo, x.workflow, x.job) + rest
        == JobPrefix(x.repo, x.workflow, x.job) + x.labels + ":" + x.conclusion + ":" + BoolName(x.isMain);
  }

  /** With colon-free conclusions job keys agree exactly when the text before the conclusion and the last parts do. */
  lemma JobKeyEqualIff(x: DurationSeries, y: DurationSeries)
    requires x.JobDuration? && y.JobDuration? && ':' !in x.conclusion && ':' !in y.conclusion
    ensures DurationKey(x) == DurationKey(y)
            <==> && JobPrefix(x.repo, x.workflow, x.job) + x.labels == JobPrefix(y.repo, y.workflow, y.job) + y.labels
                 && x.conclusion == y.conclusion && x.isMain == y.isMain
  {
    JobKeyParts(x);
    JobKeyParts(y);
    var p, q := JobPrefix(x.repo, x.workflow, x.job) + x.labels, JobPrefix(y.repo, y.workflow, y.job) + y.labels;
    if DurationKey(x) == DurationKey(y) {
      AfterTag("hist:job:", p + ":" + x.conclusion + ":" + BoolName(x.isMain),
               q + ":" + y.conclusion + ":" + BoolName(y.isMain));
      TrailingFieldsUnique(p, x.conclusion, x.isMain, q, y.conclusion, y.isMain);
    }
  }

  /** A job, and what else its series are made of. */
  datatype JobId = JobId(repo: string, workflow: string, job: string) {
    function Prefix(): string {
      JobPrefix(repo, workflow, job)
    }

    function Series(labels: seq<string>, conclusion: string, isMain: bool): DurationSeries {
      JobDuration(repo, workflow, job, LabelString(labels), conclusion, isMain)
    }
  }

  ghost predicate SomeHistogramsCollide(x: JobId, y: JobId) {
    exists a, c, b, d, m ::
      ':' !in c && ':' !in d && DurationKey(x.Series(a, c, m)) == DurationKey(y.Series(b, d, m))
  }

  /**
   * Two different jobs have histograms that share a key, for some labels and colon-free conclusions, if and only
   * if "repo:workflow:job:" of one begins that of the other, and the rest has no capital letters.
   */
  lemma JobsCollideIff(x: JobId, y: JobId)
    requires x != y
    ensures SomeHistogramsCollide(x, y) <==> Overlaps(x.Prefix(), y.Prefix())
  {
    SomeLabelsMeetIff(x.Prefix(), y.Prefix());
    if SomeHistogramsCollide(x, y) {
      var a, c, b, d, m :|
        ':' !in c && ':' !in d && DurationKey(x.Series(a, c, m)) == DurationKey(y.Series(b, d, m));
      JobKeyEqualIff(x.Series(a, c, m), y.Series(b, d, m));
      assert SomeLabelsMeet(x.Prefix(), y.Prefix());
    }
    if SomeLabelsMeet(x.Prefix(), y.Prefix()) {
      var a, b :| x.Prefix() + LabelString(a) == y.Prefix() + LabelString(b);
      JobKeyEqualIff(x.Series(a, "", true), y.Series(b, "", true));
    }
  }

  // ---- Histogram keys of runs ----

  lemma RunKeyParts(x: DurationSeries)
    requires x.RunDuration?
    ensures DurationKey(x) == "hist:run:" + (x.repo + ":" + x.workflow + ":" + x.conclusion + ":" + BoolName(x.isMain))
  {
    assert x.repo + ":" + (x.workflow + ":" + x.conclusion + ":" + BoolName(x.isMain))
        == x.repo + ":" + x.workflow + ":" + x.conclusion + ":" + BoolName(x.isMain);
  }

  /** With colon-free conclusions run keys agree exactly when "repo:workflow" and the last parts do. */
  lemma RunKeyEqualIff(x: DurationSeries, y: DurationSeries)
    requires x.RunDuration? && y.RunDuration? && ':' !in x.conclusion && ':' !in y.conclusion
    ensures DurationKey(x) == DurationKey(y)
            <==> && x.repo + ":" + x.workflow == y.repo + ":" + y.workflow
                 && x.conclusion == y.conclusion && x.isMain == y.isMain
  {
    RunKeyParts(x);
    RunKeyParts(y);
    var p, q := x.repo + ":" + x.workflow, y.repo + ":" + y.workflow;
    if DurationKey(x) == DurationKey(y) {
      AfterTag("hist:run:", p + ":" + x.conclusion + ":" + BoolName(x.isMain),
               q + ":" + y.conclusion + ":" + BoolName(y.isMain));
      TrailingFieldsUnique(p, x.conclusion, x.isMain, q, y.conclusion, y.isMain);
    }
  }
}
