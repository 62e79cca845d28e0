// The archive of a run's logs: which entries belong to which job, and which step of the job
// a file name stands for.
module ZipLogs {
  import opened Basics
  import opened Text
  import opened Labels

  /** An entry of the archive. `lines` are the lines its content scans into, None if it cannot be opened. */
  datatype ZipFile = ZipFile(name: string, isDir: bool, lines: Option<seq<string>>)

  function TrimSlash(name: string): string {
    if name != "" && name[|name| - 1] == '/' then name[..|name| - 1] else name
  }

  /** The job a file belongs to: what its name says before the first slash. */
  function FileJob(f: ZipFile): Option<string> {
    var slash := IndexByte(f.name, '/');
    if f.isDir || slash == -1 then None else Some(f.name[..slash])
  }

  /** The job an entry announces. */
  function JobOf(f: ZipFile): Option<string> {
    if f.isDir then Some(TrimSlash(f.name)) else FileJob(f)
  }

  function JobSet(entries: seq<ZipFile>): set<string>
    decreases |entries|
  {
    if entries == [] then {}
    else
      JobSet(entries[..|entries| - 1])
      + match JobOf(entries[|entries| - 1]) case None => {} case Some(job) => {job}
  }

  /** The files of a job, in the order of the archive. */
  function FilesOf(entries: seq<ZipFile>, job: string): seq<ZipFile>
    decreases |entries|
  {
    if entries == [] then []
    else
      FilesOf(entries[..|entries| - 1], job)
      + if FileJob(entries[|entries| - 1]) == Some(job) then [entries[|entries| - 1]] else []
  }

  /** Strictly increasing. */
  ghost predicate StrictlySorted(s: seq<string>) {
    forall i, j :: 0 <= i < j < |s| ==> Leq(s[i], s[j]) && s[i] != s[j]
  }

  /** A sorted listing without repetition is determined by its set. */
  lemma SortedListing(s: seq<string>, keys: set<string>)
    requires NoDup(s) && Elements(s) == keys
    ensures StrictlySorted(Sort(s)) && Elements(Sort(s)) == keys
  {
    SortProps(s);
    var sorted := Sort(s);
    forall x
      ensures x in sorted <==> x in s
    {
      assert x in sorted <==> x in multiset(sorted);
      assert x in s <==> x in multiset(s);
    }
    forall i, j | 0 <= i < j < |sorted|
      ensures sorted[i] != sorted[j]
    {
      NoDupMultiset(s, sorted, i, j);
    }
  }

  lemma OnceInMultiset<T>(s: seq<T>, x: T)
    requires NoDup(s)
    ensures multiset(s)[x] <= 1
  {
    if x in s {
      var i :| 0 <= i < |s| && s[i] == x;
      RemoveAt(s, i);
      assert x !in s[..i] && x !in s[i + 1..];
    }
  }

  lemma NoDupMultiset<T>(s: seq<T>, t: seq<T>, i: nat, j: nat)
    requires NoDup(s) && multiset(s) == multiset(t) && i < j < |t|
    ensures t[i] != t[j]
  {
    OnceInMultiset(s, t[i]);
    RemoveAt(t, j);
    assert t[i] in t[..j];
    assert t[i] in multiset(t[..j] + t[j + 1..]);
  }

  /** The keys of a set, sorted: the order they are first collected in is arbitrary. */
  method SortedKeys(keys: set<string>) returns (sorted: seq<string>)
    ensures StrictlySorted(sorted) && Elements(sorted) == keys
  {
    var rest, collected := keys, [];
    while rest != {}
      invariant NoDup(collected) && Elements(collected) == keys - rest && rest <= keys
      decreases |rest|
    {
      var k :| k in rest;
      assert k !in Elements(collected);
      assert Elements(collected + [k]) == Elements(collected) + {k};
      collected := collected + [k];
      rest := rest - {k};
    }
    var buffer := new string[|collected|](i requires 0 <= i < |collected| => collected[i]);
    assert buffer[..] == collected;
    SortStrings(buffer);
    SortedListing(collected, keys);
    return buffer[..];
  }

  /** What the listing and the lists of files must be. */
  ghost predicate Grouped(entries: seq<ZipFile>, jobs: set<string>, files: map<string, seq<ZipFile>>) {
    jobs == JobSet(entries) && Listed(entries, files)
  }

  /** Every job with files has its list, and no other job has one. */
  ghost predicate Listed(entries: seq<ZipFile>, files: map<string, seq<ZipFile>>) {
    && (forall job :: job in files <==> FilesOf(entries, job) != [])
    && forall job :: job in files ==> files[job] == FilesOf(entries, job)
  }

  method ExtractJobsAndFiles(entries: seq<ZipFile>) returns (jobs: seq<string>, filesByJob: map<string, seq<ZipFile>>)
    ensures StrictlySorted(jobs) && Grouped(entries, Elements(jobs), filesByJob)
  {
    var jobSet: set<string> := {};
    filesByJob := map[];
    for n := 0 to |entries|
      invariant Grouped(entries[..n], jobSet, filesByJob)
    {
      var f := entries[n];
      GroupedStep(entries, n, jobSet, filesByJob);
      if f.isDir {
        jobSet := jobSet + {TrimSlash(f.name)};
      } else {
        var slash := IndexByte(f.name, '/');
        if slash != -1 {
          var job := f.name[..slash];
          jobSet := jobSet + {job};
          if job !in filesByJob {
            filesByJob := filesByJob[job := []];
          }
          filesByJob := filesByJob[job := filesByJob[job] + [f]];
        }
      }
    }
    assert entries[..|entries|] == entries;
    jobs := SortedKeys(jobSet);
  }

  lemma FilesOfNext(entries: seq<ZipFile>, n: nat, job: string)
    requires n < |entries|
    ensures FilesOf(entries[..n + 1], job)
            == FilesOf(entries[..n], job) + if FileJob(entries[n]) == Some(job) then [entries[n]] else []
  {
    assert entries[..n + 1][..n] == entries[..n];
  }

  function AddFile(files: map<string, seq<ZipFile>>, fileJob: Option<string>, f: ZipFile): map<string, seq<ZipFile>> {
    match fileJob
    case None => files
    case Some(job) => files[job := (if job in files then files[job] else []) + [f]]
  }

  lemma JobSetNext(entries: seq<ZipFile>, n: nat)
    requires n < |entries|
    ensures JobSet(entries[..n + 1])
            == match JobOf(entries[n]) case None => JobSet(entries[..n]) case Some(job) => JobSet(entries[..n]) + {job}
  {
    assert entries[..n + 1][..n] == entries[..n];
  }

  lemma FilesListed(before: seq<ZipFile>, after: seq<ZipFile>, f: ZipFile, fileJob: Option<string>,
                    files: map<string, seq<ZipFile>>)
    requires forall job :: FilesOf(after, job) == FilesOf(before, job) + if fileJob == Some(job) then [f] else []
    requires Listed(before, files)
    ensures Listed(after, AddFile(files, fileJob, f))
  {
  }

  lemma GroupedStep(entries: seq<ZipFile>, n: nat, jobs: set<string>, files: map<string, seq<ZipFile>>)
    requires n < |entries| && Grouped(entries[..n], jobs, files)
    ensures Grouped(entries[..n + 1],
                    match JobOf(entries[n]) case None => jobs case Some(job) => jobs + {job},
                    AddFile(files, FileJob(entries[n]), entries[n]))
  {
    JobSetNext(entries, n);
    forall job
      ensures FilesOf(entries[..n + 1], job)
              == FilesOf(entries[..n], job) + if FileJob(entries[n]) == Some(job) then [entries[n]] else []
    {
      FilesOfNext(entries, n, job);
    }
    FilesListed(entries[..n], entries[..n + 1], entries[n], FileJob(entries[n]), files);
  }

  // ---- The grouping is a partition ----

  /** The entries that land in some list. */
  function Filed(entries: seq<ZipFile>): seq<ZipFile>
    decreases |entries|
  {
    if entries == [] then []
    else
      var last := entries[|entries| - 1];
      Filed(entries[..|entries| - 1]) + if FileJob(last).Some? then [last] else []
  }

  /** The lists of the given jobs, one after the other. */
  function AllFiles(entries: seq<ZipFile>, jobs: seq<string>): seq<ZipFile>
    decreases |jobs|
  {
    if jobs == [] then [] else AllFiles(entries, jobs[..|jobs| - 1]) + FilesOf(entries, jobs[|jobs| - 1])
  }

  function Once(f: ZipFile, there: bool): multiset<ZipFile> {
    if there then multiset{f} else multiset{}
  }

  lemma AppendLists(a: seq<ZipFile>, b: seq<ZipFile>, a': seq<ZipFile>, b': seq<ZipFile>, f: ZipFile, inA: bool,
                    inB: bool)
    requires multiset(a) == multiset(a') + Once(f, inA) && multiset(b) == multiset(b') + Once(f, inB)
    requires !(inA && inB)
    ensures multiset(a + b) == multiset(a' + b') + Once(f, inA || inB)
  {
  }

  lemma FilesOfStep(entries: seq<ZipFile>, job: string)
    requires entries != []
    ensures var init, last := entries[..|entries| - 1], entries[|entries| - 1];
            multiset(FilesOf(entries, job)) == multiset(FilesOf(init, job)) + Once(last, FileJob(last) == Some(job))
  {
  }

  lemma {:induction false} AllFilesStep(entries: seq<ZipFile>, init: seq<ZipFile>, last: ZipFile,
                                        fileJob: Option<string>, jobs: seq<string>)
    requires entries != [] && init == entries[..|entries| - 1] && last == entries[|entries| - 1]
    requires fileJob == FileJob(last) && NoDup(jobs)
    ensures multiset(AllFiles(entries, jobs))
            == multiset(AllFiles(init, jobs)) + Once(last, fileJob.Some? && fileJob.value in jobs)
    decreases |jobs|
  {
    if jobs != [] {
      var rest, job := jobs[..|jobs| - 1], jobs[|jobs| - 1];
      AllFilesStep(entries, init, last, fileJob, rest);
      FilesOfStep(entries, job);
      assert jobs == rest + [job] && job !in rest;
      AppendLists(AllFiles(entries, rest), FilesOf(entries, job), AllFiles(init, rest), FilesOf(init, job), last,
                  fileJob.Some? && fileJob.value in rest, fileJob == Some(job));
      assert fileJob.Some? ==> (fileJob.value in jobs <==> fileJob.value in rest || fileJob.value == job);
    }
  }

  lemma {:induction false} NoFiles(jobs: seq<string>)
    ensures AllFiles([], jobs) == []
    decreases |jobs|
  {
    if jobs != [] {
      NoFiles(jobs[..|jobs| - 1]);
    }
  }

  /** Every file inside a directory lands in exactly one list, exactly as often as the archive lists it. */
  lemma {:induction false} GroupingIsPartition(entries: seq<ZipFile>, jobs: seq<string>)
    requires NoDup(jobs) && JobSet(entries) <= Elements(jobs)
    ensures multiset(AllFiles(entries, jobs)) == multiset(Filed(entries))
    decreases |entries|
  {
    if entries == [] {
      NoFiles(jobs);
    } else {
      var init, last := entries[..|entries| - 1], entries[|entries| - 1];
      GroupingIsPartition(init, jobs);
      AllFilesStep(entries, init, last, FileJob(last), jobs);
      assert FileJob(last).Some? ==> FileJob(last).value in Elements(jobs);
    }
  }

  /** A file is listed under one job only, and every listed job is in the listing. */
  lemma {:induction false} ListedUnderItsJob(entries: seq<ZipFile>, job: string, i: nat)
    requires i < |FilesOf(entries, job)|
    ensures FileJob(FilesOf(entries, job)[i]) == Some(job) && FilesOf(entries, job)[i] in entries
    ensures job in JobSet(entries)
    decreases |entries|
  {
    var init := entries[..|entries| - 1];
    if i < |FilesOf(init, job)| {
      ListedUnderItsJob(init, job, i);
    }
  }

  /** An entry announces a job by lying in its directory or by being it. */
  ghost predicate Announces(f: ZipFile, job: string) {
    if f.isDir then f.name == job + "/" || (f.name == job && (job == "" || job[|job| - 1] != '/'))
    else job + "/" <= f.name && '/' !in job
  }

  /** The jobs listed are exactly those some entry announces. */
  lemma {:induction false} ListedIff(entries: seq<ZipFile>, job: string)
    ensures job in JobSet(entries) <==> exists i :: 0 <= i < |entries| && Announces(entries[i], job)
    decreases |entries|
  {
    if entries != [] {
      var n := |entries| - 1;
      ListedIff(entries[..n], job);
      AnnouncedBy(entries[n], job);
      assert forall i :: 0 <= i < n ==> entries[..n][i] == entries[i];
      if i :| 0 <= i < |entries| && Announces(entries[i], job) {
        assert i < n ==> Announces(entries[..n][i], job);
      }
      if i :| 0 <= i < n && Announces(entries[..n][i], job) {
        assert Announces(entries[i], job);
      }
      assert Announces(entries[n], job) ==> 0 <= n < |entries| && Announces(entries[n], job);
    }
  }

  lemma AnnouncedBy(f: ZipFile, job: string)
    ensures JobOf(f) == Some(job) <==> Announces(f, job)
  {
    if f.isDir {
      var n := |f.name| - 1;
      assert f.name != "" && f.name[n] == '/' ==> f.name == f.name[..n] + "/";
      assert f.name == job + "/" ==> f.name[..n] == job;
    } else {
      FileOfIff(f, job);
    }
  }

  /** A file belongs to a job if its name begins with the job's, which has no slash, and a slash. */
  lemma FileOfIff(f: ZipFile, job: string)
    ensures FileJob(f) == Some(job) <==> !f.isDir && job + "/" <= f.name && '/' !in job
  {
    if FileJob(f).Some? {
      FilePrefix(f);
    }
    if !f.isDir && job + "/" <= f.name && '/' !in job {
      var rest := f.name[|job| + 1..];
      assert f.name == job + ['/'] + rest;
      IndexOfFirst(job, '/', rest);
      assert f.name[..|job|] == job;
    }
  }

  // ---- The step number in a file name ----

  datatype NameError = MissingPrefix | SystemFile | BadNumber(reason: NumberError)

  function ExtractStepNumber(fileName: string, jobName: string): Result<int, NameError> {
    var prefix := |jobName| + 1;
    if |fileName| <= prefix then Err(MissingPrefix)
    else
      var base := fileName[prefix..];
      if base == "system.txt" then Err(SystemFile)
      else
        var underscore := IndexByte(base, '_');
        match Atoi(if underscore == -1 then base else base[..underscore])
        case Err(e) => Err(BadNumber(e))
        case Ok(n) => Ok(n)
  }

  lemma FilePrefix(f: ZipFile)
    requires FileJob(f).Some?
    ensures '/' !in FileJob(f).value
    ensures |f.name| > |FileJob(f).value| && f.name[..|FileJob(f).value| + 1] == FileJob(f).value + "/"
  {
  }

  /** Only what follows the job's name and the slash matters. */
  lemma StepNumberAfterJob(job: string, base: string)
    ensures ExtractStepNumber(job + "/" + base, job) == ExtractStepNumber("/" + base, "")
  {
    assert (job + "/" + base)[|job| + 1..] == base && ("/" + base)[1..] == base;
  }

  /** The runner's system file is skipped, and so is what does not begin with a number; nothing need follow it. */
  lemma StepNumbersSpelledOut(n: int)
    ensures ExtractStepNumber("/" + "system.txt", "") == Err(SystemFile)
    ensures ExtractStepNumber("/" + "build.txt", "") == Err(BadNumber(Syntax))
    ensures ExtractStepNumber("/", "") == Err(MissingPrefix)
    ensures ExtractStepNumber("/" + Decimal(n), "") == if FitsInt64(n) then Ok(n) else Err(BadNumber(Range))
  {
    SystemFileSkipped();
    OtherFileSkipped();
    BareNumber(n);
  }

  lemma SystemFileSkipped()
    ensures ExtractStepNumber("/" + "system.txt", "") == Err(SystemFile)
  {
    assert ("/" + "system.txt")[1..] == "system.txt";
  }

  lemma OtherFileSkipped()
    ensures ExtractStepNumber("/" + "build.txt", "") == Err(BadNumber(Syntax))
  {
    assert ("/" + "build.txt")[1..] == "build.txt";
    NotANumber("build.txt");
    assert '_' !in "build.txt";
  }

  lemma NotANumber(s: string)
    requires s != [] && s[0] == 'b'
    ensures Atoi(s) == Err(Syntax) && s != "system.txt"
  {
    assert "system.txt"[0] == 's';
  }

  lemma BareNumber(n: int)
    ensures ExtractStepNumber("/" + Decimal(n), "") == if FitsInt64(n) then Ok(n) else Err(BadNumber(Range))
  {
    var base := Decimal(n);
    assert ("/" + base)[1..] == base;
    DecimalHasNoUnderscore(n);
    DecimalLastIsDigit(n);
    AtoiDecimal(n);
    assert "system.txt"[|"system.txt"| - 1] == 't';
  }

  /** A grouped file lacks its job's prefix only if it is named like the job's directory itself. */
  lemma GroupedFilesHavePrefix(entries: seq<ZipFile>, job: string, i: nat)
    requires i < |FilesOf(entries, job)|
    ensures var name := FilesOf(entries, job)[i].name;
            && |name| > |job| && name[..|job| + 1] == job + "/"
            && (ExtractStepNumber(name, job) == Err(MissingPrefix) <==> name == job + "/")
  {
    ListedUnderItsJob(entries, job, i);
    FilePrefix(FilesOf(entries, job)[i]);
    var name := FilesOf(entries, job)[i].name;
    assert |name| == |job| + 1 ==> name == name[..|job| + 1];
  }

  /** The name GitHub gives the log of a step. */
  function StepFileName(job: string, n: int, suffix: string): string {
    job + "/" + Decimal(n) + "_" + suffix
  }

  lemma DecimalHasNoUnderscore(n: int)
    ensures '_' !in Decimal(n)
  {
    DigitsProps(if n < 0 then -n else n);
    var digits := Digits(if n < 0 then -n else n);
    assert forall i :: 0 <= i < |digits| ==> IsDigit(digits[i]);
  }

  lemma BaseNameNumber(n: int, suffix: string)
    ensures var base := Decimal(n) + "_" + suffix;
            base != "system.txt" && IndexByte(base, '_') == |Decimal(n)| && base[..|Decimal(n)|] == Decimal(n)
  {
    var base := Decimal(n) + "_" + suffix;
    DecimalHasNoUnderscore(n);
    IndexOfFirst(Decimal(n), '_', suffix);
    assert base == Decimal(n) + ['_'] + suffix && base[..|Decimal(n)|] == Decimal(n);
    assert base[|Decimal(n)|] == '_' && '_' !in "system.txt";
  }

  lemma StepFileParts(job: string, base: string)
    requires '/' !in job && base != ""
    ensures var name := job + "/" + base;
            IndexByte(name, '/') == |job| && name[..|job|] == job && name[|job| + 1..] == base
  {
    assert job + "/" + base == job + ['/'] + base;
    IndexOfFirst(job, '/', base);
  }

  lemma StepFileNumber(job: string, n: int, suffix: string)
    ensures ExtractStepNumber(StepFileName(job, n, suffix), job)
            == if FitsInt64(n) then Ok(n) else Err(BadNumber(Range))
  {
    var name, base := StepFileName(job, n, suffix), Decimal(n) + "_" + suffix;
    assert name == job + "/" + base && name[|job| + 1..] == base;
    BaseNameNumber(n, suffix);
    AtoiDecimal(n);
  }

  /**
   * Naming a step's file and reading it back: the job comes back if and only if its name has no slash, and the
   * number, asked for under the job's name, in any case.
   */
  lemma StepFileRoundTrip(job: string, n: int, suffix: string, lines: Option<seq<string>>)
    ensures FileJob(ZipFile(StepFileName(job, n, suffix), false, lines)) == Some(job) <==> '/' !in job
    ensures ExtractStepNumber(StepFileName(job, n, suffix), job)
            == if FitsInt64(n) then Ok(n) else Err(BadNumber(Range))
  {
    StepFileNumber(job, n, suffix);
    StepFileJob(job, n, suffix, lines);
  }

  lemma StepFileJob(job: string, n: int, suffix: string, lines: Option<seq<string>>)
    ensures FileJob(ZipFile(StepFileName(job, n, suffix), false, lines)) == Some(job) <==> '/' !in job
  {
    var base := Decimal(n) + "_" + suffix;
    assert StepFileName(job, n, suffix) == job + "/" + base;
    assert |base| > 0;
    StepFileJobIff(job, base, job + "/" + base, lines);
  }

  lemma StepFileJobIff(job: string, base: string, name: string, lines: Option<seq<string>>)
    requires name == job + "/" + base && base != ""
    ensures FileJob(ZipFile(name, false, lines)) == Some(job) <==> '/' !in job
  {
    if '/' !in job {
      StepFileParts(job, base);
    } else {
      JobHasNoSlash(ZipFile(name, false, lines));
    }
  }

  lemma JobHasNoSlash(f: ZipFile)
    ensures FileJob(f).Some? ==> '/' !in FileJob(f).value
  {
  }
}
