// The deterministic identifiers of GitHub Actions traces. Every identifier is cut out of
// the SHA-256 digest of a text; events that must agree on an identifier agree because they
// hash the same text. The digest function is a parameter: what is proved is about the texts.
module TraceIdentity {
  import opened Basics
  import opened Text

  type Byte = b: int | 0 <= b < 256

  type Digest = d: seq<Byte> | |d| == 32
    ghost witness seq(32, _ => 0)

  type Sha = string -> Digest

  // ---- The hashed texts ----

  function AttemptPrefix(run: int, attempt: int): string {
    Decimal(run) + Decimal(attempt)
  }

  function TraceText(run: int, attempt: int): string {
    AttemptPrefix(run, attempt) + "t"
  }

  /** What a span stands for within one run attempt. */
  datatype Node = Root | JobNode(job: string) | StepNode(job: string, number: int)

  function Suffix(node: Node): string {
    match node
    case Root => "s"
    case JobNode(job) => job
    case StepNode(job, n) => job + Decimal(n)
  }

  function SpanText(run: int, attempt: int, node: Node): string {
    AttemptPrefix(run, attempt) + Suffix(node)
  }

  // ---- The identifiers ----

  function TraceId(sha: Sha, run: int, attempt: int): seq<Byte> {
    sha(TraceText(run, attempt))[..16]
  }

  /** Bytes 8 to 16 of the digest: its hexadecimal digits 16 to 32. */
  function SpanId(sha: Sha, run: int, attempt: int, node: Node): seq<Byte> {
    sha(SpanText(run, attempt, node))[8..16]
  }

  // ---- Traces ----

  lemma PlusUnique(p: string, x: string, y: string)
    requires p + x == p + y
    ensures x == y
  {
    assert x == (p + x)[|p|..] && y == (p + y)[|p|..];
  }

  lemma EqualWidths(a: string, x: string, b: string, y: string)
    requires a + x == b + y && (|a| == |b| || |x| == |y|)
    ensures a == b && x == y
  {
    assert a == (a + x)[..|a|] && b == (b + y)[..|b|];
    assert x == (a + x)[|a|..] && y == (b + y)[|b|..];
  }

  /** No trace text is a root span's text, whatever the arguments. */
  lemma TraceIsNotRoot(run: int, attempt: int, run': int, attempt': int)
    ensures TraceText(run, attempt) != SpanText(run', attempt', Root)
  {
    var t, s := TraceText(run, attempt), SpanText(run', attempt', Root);
    assert t[|t| - 1] == 't' && s[|s| - 1] == 's';
  }

  /**
   * For one run the text determines the attempt, and so it does for runs whose numbers have equally many
   * digits; attempts of different runs share a text when their digits read the same, divided differently.
   */
  lemma TraceTextUnique(run: int, attempt: int, run': int, attempt': int)
    ensures TraceText(run, attempt) == TraceText(run', attempt')
            <==> AttemptPrefix(run, attempt) == AttemptPrefix(run', attempt')
    ensures |Decimal(run)| == |Decimal(run')| ==>
              (TraceText(run, attempt) == TraceText(run', attempt') <==> (run, attempt) == (run', attempt'))
  {
    if TraceText(run, attempt) == TraceText(run', attempt') {
      EqualWidths(AttemptPrefix(run, attempt), "t", AttemptPrefix(run', attempt'), "t");
      if |Decimal(run)| == |Decimal(run')| {
        EqualWidths(Decimal(run), Decimal(attempt), Decimal(run'), Decimal(attempt'));
        DecimalInjective(run, run');
        DecimalInjective(attempt, attempt');
      }
    }
  }

  // ---- Which runs can share a trace ----

  /** An example, attempt 2 of run 61: traces take the first 16 bytes of the digest, spans the last 8 of those. */
  lemma IdentifiersSpelledOut(sha: Sha)
    ensures TraceId(sha, 61, 2) == sha("612t")[..16] && SpanId(sha, 61, 2, Root) == sha("612s")[8..16]
    ensures SpanId(sha, 61, 2, JobNode("build")) == sha("612build")[8..16]
    ensures SpanId(sha, 61, 2, StepNode("build", 3)) == sha("612build3")[8..16]
  {
    assert Digits(61) == Digits(6) + ['1'];
    assert Decimal(61) == "61" && Decimal(2) == "2" && Decimal(3) == "3";
    assert AttemptPrefix(61, 2) == "612";
    assert "612" + "t" == "612t" && "612" + "s" == "612s";
    assert "612" + "build" == "612build";
    assert "build" + "3" == "build3" && "612" + "build3" == "612build3";
  }

  predicate IsAttempt(n: int) {
    n >= 1 && FitsInt64(n)
  }

  /** Some attempts of the two runs have the same trace text. */
  ghost predicate SomeAttemptsCollide(run: int, run': int) {
    exists attempt, attempt' ::
      IsAttempt(attempt) && IsAttempt(attempt') && TraceText(run, attempt) == TraceText(run', attempt')
  }

  /**
   * The longer number continues the shorter one with digits that begin an attempt number: they do not start
   * with 0, and there is an int64 that starts with them and has a digit more.
   */
  predicate Continues(run: int, run': int) {
    var a, b := Decimal(run), Decimal(run');
    && |a| < |b| && a == b[..|a|] && AllDigits(b[|a|..])
    && b[|a|] != '0' && Value(b[|a|..]) * 10 + 1 < TWO_TO_63
  }

  /** Prepending digits to a numeral multiplies what they denote. */
  lemma {:induction false} ValueGrows(x: string, y: string)
    requires AllDigits(x) && AllDigits(y) && y != "" && (y[0] != '0')
    ensures AllDigits(x + y) && Value(x + y) >= Value(x) * 10 + 1
    decreases |y|
  {
    var n := |y| - 1;
    assert (x + y)[..|x + y| - 1] == x + y[..n];
    if n > 0 {
      ValueGrows(x, y[..n]);
    } else {
      assert x + y[..0] == x;
    }
  }

  lemma CollisionContinues(run: int, attempt: int, run': int, attempt': int)
    requires IsAttempt(attempt) && IsAttempt(attempt')
    requires TraceText(run, attempt) == TraceText(run', attempt') && |Decimal(run)| < |Decimal(run')|
    ensures Continues(run, run')
  {
    TraceTextUnique(run, attempt, run', attempt');
    var a, b, whole, tail := Decimal(run), Decimal(run'), Decimal(attempt), Decimal(attempt');
    var x := b[|a|..];
    assert a == (a + whole)[..|a|] && b == (b + tail)[..|b|];
    assert b == a + x;
    assert a + whole == a + (x + tail);
    PlusUnique(a, whole, x + tail);
    DigitsProps(attempt);
    DigitsProps(attempt');
    assert forall i :: 0 <= i < |x| ==> x[i] == whole[i];
    assert whole[0] == x[0] == b[|a|];
    ValueGrows(x, tail);
  }

  lemma ContinuesCollide(run: int, run': int) returns (attempt: int)
    requires Continues(run, run')
    ensures IsAttempt(attempt) && IsAttempt(1) && TraceText(run, attempt) == TraceText(run', 1)
  {
    var a, b := Decimal(run), Decimal(run');
    var x := b[|a|..];
    var numeral := x + "1";
    assert numeral[..|numeral| - 1] == x;
    NumeralOfValue(numeral);
    attempt := Value(numeral);
    assert Decimal(1) == "1";
    assert b == a + x;
    assert AttemptPrefix(run, attempt) == a + numeral == b + "1";
  }

  /**
   * Two runs have attempts that share a trace, and with it every span text, if and only if the number of one
   * continues the number of the other in this way.
   */
  lemma RunsCollideIff(run: int, run': int)
    requires run != run'
    ensures SomeAttemptsCollide(run, run') <==> Continues(run, run') || Continues(run', run)
  {
    if SomeAttemptsCollide(run, run') {
      var attempt, attempt' :|
        IsAttempt(attempt) && IsAttempt(attempt') && TraceText(run, attempt) == TraceText(run', attempt');
      TraceTextUnique(run, attempt, run', attempt');
      if |Decimal(run)| < |Decimal(run')| {
        CollisionContinues(run, attempt, run', attempt');
      } else {
        CollisionContinues(run', attempt', run, attempt);
      }
    }
    if Continues(run, run') {
      var attempt := ContinuesCollide(run, run');
    }
    if Continues(run', run) {
      var attempt := ContinuesCollide(run', run);
      assert TraceText(run, 1) == TraceText(run', attempt);
    }
  }

  lemma DecimalOfDigits(a: nat, b: nat)
    requires 0 < a < 10 && b < 10
    ensures Decimal(a) == [DigitChar(a)] && Decimal(10 * a + b) == [DigitChar(a), DigitChar(b)]
  {
    assert (10 * a + b) / 10 == a && (10 * a + b) % 10 == b;
  }

  /** Attempt 23 of run 1 and attempt 3 of run 12 share their trace, and so all their spans. */
  lemma AttemptsCollide(node: Node)
    ensures TraceText(1, 23) == TraceText(12, 3) && SpanText(1, 23, node) == SpanText(12, 3, node)
  {
    DecimalOfDigits(1, 2);
    DecimalOfDigits(2, 3);
    DecimalOfDigits(3, 0);
    assert AttemptPrefix(1, 23) == AttemptPrefix(12, 3);
  }

  // ---- Spans of one attempt ----

  /** The step numbers considered: int64, and natural unless `signed`. */
  predicate StepNumber(n: int, signed: bool) {
    FitsInt64(n) && (signed || n >= 0)
  }

  ghost predicate NodeOver(node: Node, jobs: set<string>, signed: bool) {
    match node
    case Root => true
    case JobNode(job) => job in jobs
    case StepNode(job, n) => job in jobs && StepNumber(n, signed)
  }

  /** Different spans of an attempt hash different texts. */
  ghost predicate Distinguishes(jobs: set<string>, signed: bool) {
    forall x, y :: NodeOver(x, jobs, signed) && NodeOver(y, jobs, signed) && Suffix(x) == Suffix(y) ==> x == y
  }

  lemma SuffixDecides(run: int, attempt: int, x: Node, y: Node)
    ensures SpanText(run, attempt, x) == SpanText(run, attempt, y) <==> Suffix(x) == Suffix(y)
  {
    if SpanText(run, attempt, x) == SpanText(run, attempt, y) {
      PlusUnique(AttemptPrefix(run, attempt), Suffix(x), Suffix(y));
    }
  }

  /** Name `b` is name `a` followed by a step number. */
  ghost predicate Numbered(a: string, b: string, signed: bool) {
    exists n :: StepNumber(n, signed) && b == a + Decimal(n)
  }

  /** The names can be told apart whatever step numbers follow them. */
  ghost predicate SeparableNames(jobs: set<string>, signed: bool) {
    && "s" !in jobs
    && (forall a, b :: a in jobs && b in jobs ==> !Numbered(a, b, signed))
    && (signed ==> forall a, b :: a in jobs && b in jobs ==> b != a + "-")
  }

  lemma {:induction false} ValuePrefix(x: string, y: string)
    requires AllDigits(x + y)
    ensures AllDigits(x) && Value(x) <= Value(x + y)
    decreases |y|
  {
    assert forall i :: 0 <= i < |x| ==> x[i] == (x + y)[i];
    if y == "" {
      assert x + y == x;
    } else {
      assert (x + y)[..|x + y| - 1] == x + y[..|y| - 1];
      ValuePrefix(x, y[..|y| - 1]);
    }
  }

  /** A proper non-empty prefix of a natural number's numeral is the numeral of a smaller one. */
  lemma PrefixOfDigits(m: nat, x: string, y: string) returns (k: nat)
    requires x != "" && y != "" && Digits(m) == x + y
    ensures 0 < k <= m && x == Digits(k)
  {
    DigitsProps(m);
    var whole := Digits(m);
    assert whole[0] == x[0];
    ValuePrefix(x, y);
    NumeralOfValue(x);
    k := Value(x);
  }

  lemma DecimalSign(n: int)
    ensures Decimal(n) != "" && (Decimal(n)[0] == '-' <==> n < 0)
    ensures forall i :: 0 < i < |Decimal(n)| ==> Decimal(n)[i] != '-'
    ensures n < 0 ==> Decimal(n)[1..] == Digits(0 - n)
  {
    DigitsProps(if n < 0 then -n else n);
  }

  /** What may stand before a numeral to give another numeral: a positive number, a negative one, or a minus sign. */
  lemma BeforeNumeral(m: int, x: string, n: int) returns (k: int)
    requires x != "" && Decimal(m) == x + Decimal(n)
    ensures n >= 0
    ensures if m >= 0 then 0 < k <= m && x == Decimal(k)
            else x == "-" || (m <= k < 0 && x == Decimal(k))
  {
    DecimalSign(m);
    DecimalSign(n);
    var whole, tail := Decimal(m), Decimal(n);
    assert whole[|x|] == tail[0] && whole[0] == x[0];
    k := 0;
    if m >= 0 {
      k := PrefixOfDigits(m, x, tail);
    } else if x != "-" {
      assert x == "-" + x[1..] && whole[1..] == x[1..] + tail;
      var v: int := PrefixOfDigits(-m, x[1..], tail);
      k := -v;
    }
  }

  /** Two steps of differently named jobs share a text only if one name extends the other. */
  lemma StepsCollide(a: string, m: int, b: string, n: int, signed: bool)
    requires StepNumber(m, signed) && StepNumber(n, signed)
    requires a + Decimal(m) == b + Decimal(n) && |a| < |b|
    ensures Numbered(a, b, signed) || (signed && b == a + "-")
  {
    var x := b[|a|..];
    assert a == (a + Decimal(m))[..|a|] && b == (b + Decimal(n))[..|b|];
    assert b == a + x;
    assert a + Decimal(m) == a + (x + Decimal(n));
    PlusUnique(a, Decimal(m), x + Decimal(n));
    var k := BeforeNumeral(m, x, n);
    if x != "-" || m >= 0 {
      assert StepNumber(k, signed) && b == a + Decimal(k);
    }
  }

  lemma StepsApart(a: string, m: int, b: string, n: int, jobs: set<string>, signed: bool)
    requires SeparableNames(jobs, signed) && a in jobs && b in jobs
    requires StepNumber(m, signed) && StepNumber(n, signed) && a + Decimal(m) == b + Decimal(n)
    ensures a == b && m == n
  {
    if |a| < |b| {
      StepsCollide(a, m, b, n, signed);
    } else if |b| < |a| {
      StepsCollide(b, n, a, m, signed);
    } else {
      EqualWidths(a, Decimal(m), b, Decimal(n));
      DecimalInjective(m, n);
    }
  }

  lemma NodesApart(x: Node, y: Node, jobs: set<string>, signed: bool)
    requires SeparableNames(jobs, signed) && NodeOver(x, jobs, signed) && NodeOver(y, jobs, signed)
    requires Suffix(x) == Suffix(y)
    ensures x == y
  {
    if x.StepNode? && y.StepNode? {
      StepsApart(x.job, x.number, y.job, y.number, jobs, signed);
    } else if x.StepNode? {
      StepIsNoOther(x, y, jobs, signed);
    } else if y.StepNode? {
      StepIsNoOther(y, x, jobs, signed);
    }
  }

  lemma StepIsNoOther(x: Node, y: Node, jobs: set<string>, signed: bool)
    requires SeparableNames(jobs, signed) && NodeOver(x, jobs, signed) && NodeOver(y, jobs, signed)
    requires x.StepNode? && !y.StepNode?
    ensures Suffix(x) != Suffix(y)
  {
    DecimalLastIsDigit(x.number);
    var s := Suffix(x);
    assert IsDigit(s[|s| - 1]);
    if s == Suffix(y) && y.JobNode? {
      assert Numbered(x.job, y.job, signed);
    }
  }

  /**
   * The root, job and step spans of one attempt hash pairwise different texts if and only if no job is
   * called "s" and no job's name is another's followed by a step number (or, were step numbers negative,
   * by a minus sign).
   */
  lemma SpanTextsDistinctIff(jobs: set<string>, signed: bool)
    ensures Distinguishes(jobs, signed) <==> SeparableNames(jobs, signed)
  {
    if SeparableNames(jobs, signed) {
      forall x, y | NodeOver(x, jobs, signed) && NodeOver(y, jobs, signed) && Suffix(x) == Suffix(y)
        ensures x == y
      {
        NodesApart(x, y, jobs, signed);
      }
    }
    if Distinguishes(jobs, signed) {
      NamesSeparable(jobs, signed);
    }
  }

  lemma NumberedCollide(a: string, b: string, jobs: set<string>, signed: bool) returns (x: Node, y: Node)
    requires Numbered(a, b, signed) && a in jobs && b in jobs
    ensures NodeOver(x, jobs, signed) && NodeOver(y, jobs, signed) && Suffix(x) == Suffix(y) && x != y
  {
    var n :| StepNumber(n, signed) && b == a + Decimal(n);
    x, y := StepNode(a, n), JobNode(b);
  }

  lemma SignedCollide(a: string, b: string, jobs: set<string>) returns (x: Node, y: Node)
    requires b == a + "-" && a in jobs && b in jobs
    ensures NodeOver(x, jobs, true) && NodeOver(y, jobs, true) && Suffix(x) == Suffix(y) && x != y
  {
    x, y := StepNode(a, -1), StepNode(b, 1);
    assert Decimal(-1) == "-" + Decimal(1);
    assert a + Decimal(-1) == b + Decimal(1);
  }

  lemma RootCollides(jobs: set<string>, signed: bool)
    requires "s" in jobs
    ensures NodeOver(Root, jobs, signed) && NodeOver(JobNode("s"), jobs, signed) && Suffix(Root) == Suffix(JobNode("s"))
  {
  }

  lemma NamesSeparable(jobs: set<string>, signed: bool)
    requires Distinguishes(jobs, signed)
    ensures SeparableNames(jobs, signed)
  {
    if "s" in jobs {
      RootCollides(jobs, signed);
    }
    forall a, b | a in jobs && b in jobs
      ensures !Numbered(a, b, signed)
    {
      if Numbered(a, b, signed) {
        var x, y := NumberedCollide(a, b, jobs, signed);
      }
    }
    if signed {
      forall a, b | a in jobs && b in jobs
        ensures b != a + "-"
      {
        if b == a + "-" {
          var x, y := SignedCollide(a, b, jobs);
        }
      }
    }
  }

  lemma NumberedEndsInDigit(a: string, b: string, signed: bool)
    requires Numbered(a, b, signed)
    ensures b != "" && IsDigit(b[|b| - 1])
  {
    var n :| StepNumber(n, signed) && b == a + Decimal(n);
    DecimalLastIsDigit(n);
  }

  /** Names that do not end in a digit, none of them "s", are separable when step numbers are natural. */
  lemma UnnumberedNames(jobs: set<string>)
    requires "s" !in jobs
    requires forall a :: a in jobs && a != "" ==> !IsDigit(a[|a| - 1])
    ensures SeparableNames(jobs, false)
  {
    forall a, b | a in jobs && b in jobs
      ensures !Numbered(a, b, false)
    {
      if Numbered(a, b, false) {
        NumberedEndsInDigit(a, b, false);
      }
    }
  }

  /** Step 11 of job "build" and step 1 of job "build1" share a span; so do step -1 of "x" and step 1 of "x-". */
  lemma NamesCollide(run: int, attempt: int)
    ensures SpanText(run, attempt, StepNode("build", 11)) == SpanText(run, attempt, StepNode("build1", 1))
    ensures SpanText(run, attempt, StepNode("x", -1)) == SpanText(run, attempt, StepNode("x-", 1))
  {
    DecimalOfDigits(1, 1);
    assert "build" + Decimal(11) == "build1" + Decimal(1);
    assert Decimal(-1) == "-" + Decimal(1);
    assert "x" + Decimal(-1) == "x-" + Decimal(1);
  }

  // ---- From texts to identifiers ----

  /** No two spans of the list have different texts with the same eight digest bytes. */
  ghost predicate NoDigestCollision(sha: Sha, run: int, attempt: int, nodes: seq<Node>) {
    forall i, j ::
      0 <= i < j < |nodes| && SpanId(sha, run, attempt, nodes[i]) == SpanId(sha, run, attempt, nodes[j]) ==>
      SpanText(run, attempt, nodes[i]) == SpanText(run, attempt, nodes[j])
  }

  ghost predicate SpanIdsDistinct(sha: Sha, run: int, attempt: int, nodes: seq<Node>) {
    forall i, j :: 0 <= i < j < |nodes| ==> SpanId(sha, run, attempt, nodes[i]) != SpanId(sha, run, attempt, nodes[j])
  }

  ghost predicate NodesOver(nodes: seq<Node>, jobs: set<string>, signed: bool) {
    forall i :: 0 <= i < |nodes| ==> NodeOver(nodes[i], jobs, signed)
  }

  /** Different spans that do not collide in the digest have different identifiers. */
  ghost predicate IdsTellApart(sha: Sha, run: int, attempt: int, nodes: seq<Node>, jobs: set<string>, signed: bool) {
    NodesOver(nodes, jobs, signed) && NoDup(nodes) && NoDigestCollision(sha, run, attempt, nodes) ==>
      SpanIdsDistinct(sha, run, attempt, nodes)
  }

  lemma SeparableIdsDistinct(sha: Sha, run: int, attempt: int, nodes: seq<Node>, jobs: set<string>, signed: bool)
    requires SeparableNames(jobs, signed) && NodesOver(nodes, jobs, signed) && NoDup(nodes)
    requires NoDigestCollision(sha, run, attempt, nodes)
    ensures SpanIdsDistinct(sha, run, attempt, nodes)
  {
    forall i, j | 0 <= i < j < |nodes|
      ensures SpanId(sha, run, attempt, nodes[i]) != SpanId(sha, run, attempt, nodes[j])
    {
      SuffixDecides(run, attempt, nodes[i], nodes[j]);
      if Suffix(nodes[i]) == Suffix(nodes[j]) {
        NodesApart(nodes[i], nodes[j], jobs, signed);
      }
    }
  }

  /** Names that are not separable give two spans that no digest function can tell apart. */
  lemma InseparableNames(jobs: set<string>, signed: bool) returns (nodes: seq<Node>)
    requires !SeparableNames(jobs, signed)
    ensures |nodes| == 2 && NodesOver(nodes, jobs, signed) && NoDup(nodes) && Suffix(nodes[0]) == Suffix(nodes[1])
  {
    SpanTextsDistinctIff(jobs, signed);
    var x, y :| NodeOver(x, jobs, signed) && NodeOver(y, jobs, signed) && Suffix(x) == Suffix(y) && x != y;
    nodes := [x, y];
  }

  /**
   * Span identifiers tell the spans of an attempt apart, whatever finite list of spans it has and short of a
   * collision of the digest among just these, if and only if the names are separable.
   */
  lemma SpanIdsDistinctIff(sha: Sha, run: int, attempt: int, jobs: set<string>, signed: bool)
    ensures SeparableNames(jobs, signed)
            <==> forall nodes :: IdsTellApart(sha, run, attempt, nodes, jobs, signed)
  {
    if SeparableNames(jobs, signed) {
      forall nodes
        ensures IdsTellApart(sha, run, attempt, nodes, jobs, signed)
      {
        if NodesOver(nodes, jobs, signed) && NoDup(nodes) && NoDigestCollision(sha, run, attempt, nodes) {
          SeparableIdsDistinct(sha, run, attempt, nodes, jobs, signed);
        }
      }
    } else {
      var nodes := InseparableNames(jobs, signed);
      SuffixDecides(run, attempt, nodes[0], nodes[1]);
      assert !IdsTellApart(sha, run, attempt, nodes, jobs, signed);
    }
  }

  // ---- The assumption can be met ----

  function SpanTexts(run: int, attempt: int, nodes: seq<Node>): (texts: seq<string>)
    ensures |texts| == |nodes|
    ensures forall i :: 0 <= i < |nodes| ==> texts[i] == SpanText(run, attempt, nodes[i])
  {
    seq(|nodes|, i requires 0 <= i < |nodes| => SpanText(run, attempt, nodes[i]))
  }

  /** Where a text stands in a list. */
  function Position(texts: seq<string>, text: string): (p: nat)
    ensures p <= |texts|
    ensures text in texts ==> p < |texts| && texts[p] == text
  {
    if texts == [] then 0 else if texts[0] == text then 0 else 1 + Position(texts[1..], text)
  }

  /** A digest function that numbers the texts of a list. */
  function NumberingDigest(texts: seq<string>): Sha {
    (text: string) => seq(32, _ => Position(texts, text) % 256)
  }

  lemma DigestNumbers(texts: seq<string>, text: string)
    requires |texts| <= 256 && text in texts
    ensures NumberingDigest(texts)(text)[8..16][0] == Position(texts, text)
  {
    var digest := NumberingDigest(texts)(text);
    assert digest[8] == Position(texts, text) % 256;
    assert digest[8..16][0] == digest[8];
  }

  lemma SameNumberSameText(texts: seq<string>, i: nat, j: nat)
    requires |texts| <= 256 && i < |texts| && j < |texts|
    requires NumberingDigest(texts)(texts[i])[8..16] == NumberingDigest(texts)(texts[j])[8..16]
    ensures texts[i] == texts[j]
  {
    DigestNumbers(texts, texts[i]);
    DigestNumbers(texts, texts[j]);
  }

  /** For every attempt of at most 256 spans there is a digest function that collides on none of them. */
  lemma CollisionsAvoidable(run: int, attempt: int, nodes: seq<Node>)
    requires |nodes| <= 256
    ensures NoDigestCollision(NumberingDigest(SpanTexts(run, attempt, nodes)), run, attempt, nodes)
  {
    var texts := SpanTexts(run, attempt, nodes);
    var sha := NumberingDigest(texts);
    forall i, j | 0 <= i < j < |nodes| && SpanId(sha, run, attempt, nodes[i]) == SpanId(sha, run, attempt, nodes[j])
      ensures SpanText(run, attempt, nodes[i]) == SpanText(run, attempt, nodes[j])
    {
      SameNumberSameText(texts, i, j);
    }
  }
}
