// Folding the lines of a step's log file into records: a line that starts with a timestamp
// opens a record, the lines after it continue it as long as they fit.
//
// Three descriptions are tied together: the loop over a mutable builder, the fold it
// performs (`ReadAll`), and the cut of the file into segments (`Heads`, `Body`).
module LogAssembly {
  import opened Basics
  import opened Text

  const MAX_LOG_ENTRY_BYTES: nat := 1024 * 1024

  /** Reads the first token of a line as a time, if it is one. */
  type Stamp = string -> Option<int>

  function ParseTimestamp(stamp: Stamp, line: string): Option<(int, string)> {
    var space := IndexByte(line, ' ');
    if space == -1 then None
    else
      match stamp(line[..space])
      case None => None
      case Some(time) => Some((time, line[space + 1..]))
  }

  /** A line is taken apart at its first space: what precedes it must read as a time, what follows it is kept. */
  lemma TimestampRead(stamp: Stamp, token: string, rest: string)
    requires ' ' !in token
    ensures ParseTimestamp(stamp, token) == None
    ensures stamp(token) == None ==> ParseTimestamp(stamp, token + " " + rest) == None
    ensures stamp(token).Some? ==> ParseTimestamp(stamp, token + " " + rest) == Some((stamp(token).value, rest))
  {
    IndexOfFirst(token, ' ', rest);
    assert token + " " + rest == token + [' '] + rest;
    assert (token + " " + rest)[..|token|] == token && (token + " " + rest)[|token| + 1..] == rest;
  }

  datatype Entry = Entry(time: int, body: string)

  // ---- The fold ----

  /** The entries completed so far, and the one being read. */
  datatype Reading = Reading(done: seq<Entry>, current: Option<Entry>) {
    function Close(): seq<Entry> {
      done + match current case None => [] case Some(entry) => [entry]
    }
  }

  const NOTHING_READ: Reading := Reading([], None)

  predicate Fits(body: string, line: string) {
    |body| + |line| + 1 <= MAX_LOG_ENTRY_BYTES
  }

  /** A continuation line is appended unless it is empty or the body would become too long. */
  function Extend(body: string, line: string): string {
    if line == "" || !Fits(body, line) then body else body + "\n" + line
  }

  function Read(stamp: Stamp, r: Reading, line: string): Reading {
    match ParseTimestamp(stamp, line)
    case Some((time, rest)) => Reading(r.Close(), Some(Entry(time, rest)))
    case None =>
      match r.current
      case None => r
      case Some(entry) => r.(current := Some(entry.(body := Extend(entry.body, line))))
  }

  function ReadAll(stamp: Stamp, start: Reading, lines: seq<string>): Reading
    decreases |lines|
  {
    if lines == [] then start
    else Read(stamp, ReadAll(stamp, start, lines[..|lines| - 1]), lines[|lines| - 1])
  }

  /** The entries of a file. */
  function Entries(stamp: Stamp, lines: seq<string>): seq<Entry> {
    ReadAll(stamp, NOTHING_READ, lines).Close()
  }

  // ---- The segmentation ----

  predicate IsHead(stamp: Stamp, line: string) {
    ParseTimestamp(stamp, line).Some?
  }

  /** The positions of the timestamped lines. */
  function Heads(stamp: Stamp, lines: seq<string>): seq<nat>
    decreases |lines|
  {
    if lines == [] then []
    else
      var n := |lines| - 1;
      Heads(stamp, lines[..n]) + if IsHead(stamp, lines[n]) then [n] else []
  }

  ghost predicate ValidHeads(stamp: Stamp, lines: seq<string>, heads: seq<nat>) {
    && (forall k :: 0 <= k < |heads| ==> heads[k] < |lines| && IsHead(stamp, lines[heads[k]]))
    && (forall k, l :: 0 <= k < l < |heads| ==> heads[k] < heads[l])
  }

  ghost predicate AllHeads(stamp: Stamp, lines: seq<string>, heads: seq<nat>) {
    forall i: nat :: i < |lines| && IsHead(stamp, lines[i]) ==> i in heads
  }

  lemma {:induction false} HeadsAreTheHeads(stamp: Stamp, lines: seq<string>)
    ensures ValidHeads(stamp, lines, Heads(stamp, lines)) && AllHeads(stamp, lines, Heads(stamp, lines))
    decreases |lines|
  {
    if lines != [] {
      var n := |lines| - 1;
      HeadsAreTheHeads(stamp, lines[..n]);
      MoreHeads(stamp, lines, n, Heads(stamp, lines[..n]));
    }
  }

  lemma MoreHeads(stamp: Stamp, lines: seq<string>, n: nat, heads: seq<nat>)
    requires n + 1 == |lines| && ValidHeads(stamp, lines[..n], heads) && AllHeads(stamp, lines[..n], heads)
    ensures var heads' := heads + if IsHead(stamp, lines[n]) then [n] else [];
            ValidHeads(stamp, lines, heads') && AllHeads(stamp, lines, heads')
  {
    assert forall i :: 0 <= i < n ==> lines[..n][i] == lines[i];
  }

  /** A body: what the head line leaves, and the following lines as far as they fit. */
  function Body(rest: string, following: seq<string>): string
    decreases |following|
  {
    if following == [] then rest
    else Extend(Body(rest, following[..|following| - 1]), following[|following| - 1])
  }

  /** The entry of the segment from the head at `a` up to `b`. */
  function Segment(stamp: Stamp, lines: seq<string>, a: nat, b: nat): Entry
    requires a < b <= |lines| && IsHead(stamp, lines[a])
  {
    var (time, rest) := ParseTimestamp(stamp, lines[a]).value;
    Entry(time, Body(rest, lines[a + 1..b]))
  }

  /** Where the k-th segment ends: at the next head, or at the end of the file. */
  function SegmentEnd(lines: seq<string>, heads: seq<nat>, k: nat): nat {
    if k + 1 < |heads| then heads[k + 1] else |lines|
  }

  /** One entry for each head, in file order, each the entry of its segment. */
  ghost predicate Segmented(stamp: Stamp, lines: seq<string>, heads: seq<nat>, entries: seq<Entry>) {
    && ValidHeads(stamp, lines, heads) && |entries| == |heads|
    && forall k :: 0 <= k < |heads| ==>
         entries[k] == Segment(stamp, lines, heads[k], SegmentEnd(lines, heads, k))
  }

  lemma SegmentOfPrefix(stamp: Stamp, lines: seq<string>, n: nat, a: nat, b: nat)
    requires a < b <= n <= |lines| && IsHead(stamp, lines[a])
    ensures Segment(stamp, lines[..n], a, b) == Segment(stamp, lines, a, b)
  {
    assert lines[..n][a + 1..b] == lines[a + 1..b];
  }

  lemma SegmentGrows(stamp: Stamp, lines: seq<string>, a: nat, n: nat)
    requires a < n < |lines| && IsHead(stamp, lines[a])
    ensures Segment(stamp, lines, a, n + 1)
            == Segment(stamp, lines, a, n).(body := Extend(Segment(stamp, lines, a, n).body, lines[n]))
  {
    assert lines[a + 1..n + 1][..n - a - 1] == lines[a + 1..n];
  }

  /** The current entry is there as soon as there was a head. */
  lemma {:induction false} CurrentIffHead(stamp: Stamp, lines: seq<string>)
    ensures ReadAll(stamp, NOTHING_READ, lines).current.Some? <==> Heads(stamp, lines) != []
    ensures ReadAll(stamp, NOTHING_READ, lines).current.None? ==> ReadAll(stamp, NOTHING_READ, lines) == NOTHING_READ
    decreases |lines|
  {
    if lines != [] {
      CurrentIffHead(stamp, lines[..|lines| - 1]);
    }
  }

  lemma HeadOpens(stamp: Stamp, lines: seq<string>, heads: seq<nat>, entries: seq<Entry>, time: int, rest: string)
    requires lines != [] && ParseTimestamp(stamp, lines[|lines| - 1]) == Some((time, rest))
    requires Segmented(stamp, lines[..|lines| - 1], heads, entries)
    ensures Segmented(stamp, lines, heads + [|lines| - 1], entries + [Entry(time, rest)])
  {
    var n := |lines| - 1;
    var init, heads' := lines[..n], heads + [n];
    forall k | 0 <= k < |heads|
      ensures entries[k] == Segment(stamp, lines, heads'[k], SegmentEnd(lines, heads', k))
    {
      SegmentOfPrefix(stamp, lines, n, heads[k], SegmentEnd(init, heads, k));
    }
    assert lines[n + 1..n + 1] == [];
  }

  lemma EarlierSegment(stamp: Stamp, lines: seq<string>, init: seq<string>, heads: seq<nat>, entries: seq<Entry>,
                       k: nat)
    requires lines != [] && init == lines[..|lines| - 1] && Segmented(stamp, init, heads, entries)
    requires k + 1 < |heads|
    ensures entries[k] == Segment(stamp, lines, heads[k], SegmentEnd(lines, heads, k))
  {
    assert heads[k] < heads[k + 1] && entries[k] == Segment(stamp, init, heads[k], SegmentEnd(init, heads, k));
    SegmentOfPrefix(stamp, lines, |lines| - 1, heads[k], heads[k + 1]);
  }

  lemma LineContinues(stamp: Stamp, lines: seq<string>, heads: seq<nat>, entries: seq<Entry>, last: Entry)
    requires lines != [] && heads != []
    requires Segmented(stamp, lines[..|lines| - 1], heads, entries + [last])
    ensures Segmented(stamp, lines, heads, entries + [last.(body := Extend(last.body, lines[|lines| - 1]))])
  {
    var n, m := |lines| - 1, |heads| - 1;
    forall k | 0 <= k < m
      ensures entries[k] == Segment(stamp, lines, heads[k], SegmentEnd(lines, heads, k))
    {
      assert (entries + [last])[k] == entries[k];
      EarlierSegment(stamp, lines, lines[..n], heads, entries + [last], k);
    }
    assert (entries + [last])[m] == last;
    SegmentOfPrefix(stamp, lines, n, heads[m], n);
    SegmentGrows(stamp, lines, heads[m], n);
  }

  /**
   * The fold cuts the file at its timestamped lines: one entry per such line, in file order, with that line's
   * time and a body made of the rest of the line and the lines up to the next one as far as they fit.
   */
  lemma {:induction false} EntriesAreSegments(stamp: Stamp, lines: seq<string>)
    ensures Segmented(stamp, lines, Heads(stamp, lines), Entries(stamp, lines))
    decreases |lines|
  {
    if lines != [] {
      var n := |lines| - 1;
      var init := lines[..n];
      EntriesAreSegments(stamp, init);
      CurrentIffHead(stamp, init);
      var r := ReadAll(stamp, NOTHING_READ, init);
      match ParseTimestamp(stamp, lines[n])
      case Some((time, rest)) =>
        HeadOpens(stamp, lines, Heads(stamp, init), r.Close(), time, rest);
      case None =>
        if r.current.Some? {
          LineContinues(stamp, lines, Heads(stamp, init), r.done, r.current.value);
        }
    }
  }

  // ---- How long bodies get ----

  function Size(rest: string, following: seq<string>): nat
    decreases |following|
  {
    if following == [] then |rest|
    else
      var last := following[|following| - 1];
      Size(rest, following[..|following| - 1]) + if last == "" then 0 else |last| + 1
  }

  function NonEmpty(lines: seq<string>): seq<string>
    decreases |lines|
  {
    if lines == [] then []
    else NonEmpty(lines[..|lines| - 1]) + if lines[|lines| - 1] == "" then [] else [lines[|lines| - 1]]
  }

  /** The lines of a segment that fit, each judged by the body gathered before it. */
  function Kept(rest: string, following: seq<string>): seq<string>
    decreases |following|
  {
    if following == [] then []
    else
      var init, last := following[..|following| - 1], following[|following| - 1];
      Kept(rest, init) + if last == "" || !Fits(Body(rest, init), last) then [] else [last]
  }

  /** A body is what the head line leaves and the lines kept, one to a line. */
  lemma {:induction false} BodyIsJoined(rest: string, following: seq<string>)
    ensures Body(rest, following) == Join([rest] + Kept(rest, following), '\n')
    decreases |following|
  {
    if following == [] {
      assert [rest] + [] == [rest];
    } else {
      var init, last := following[..|following| - 1], following[|following| - 1];
      BodyIsJoined(rest, init);
      if last == "" || !Fits(Body(rest, init), last) {
        assert Kept(rest, following) == Kept(rest, init);
      } else {
        JoinSnoc([rest] + Kept(rest, init), '\n', last);
        assert [rest] + Kept(rest, following) == [rest] + Kept(rest, init) + [last];
      }
    }
  }

  /** A body never outgrows the limit, unless what its head line leaves already does. */
  lemma {:induction false} BodyBounded(rest: string, following: seq<string>)
    ensures |rest| <= |Body(rest, following)| <= Size(rest, following)
    ensures |rest| <= 1_048_576 ==> |Body(rest, following)| <= 1_048_576
    ensures |rest| > 1_048_576 ==> Body(rest, following) == rest
    decreases |following|
  {
    if following != [] {
      BodyBounded(rest, following[..|following| - 1]);
    }
  }

  /** Nothing is left out of a body exactly when everything together fits, or there is nothing to add. */
  lemma {:induction false} KeptAllIff(rest: string, following: seq<string>)
    ensures |Kept(rest, following)| <= |NonEmpty(following)|
    ensures Kept(rest, following) == NonEmpty(following)
            <==> NonEmpty(following) == [] || Size(rest, following) <= 1_048_576
    ensures Kept(rest, following) == NonEmpty(following) ==> |Body(rest, following)| == Size(rest, following)
    ensures |Kept(rest, following)| == |NonEmpty(following)| ==> Kept(rest, following) == NonEmpty(following)
    decreases |following|
  {
    if following != [] {
      var init, last := following[..|following| - 1], following[|following| - 1];
      KeptAllIff(rest, init);
      BodyBounded(rest, init);
      if NonEmpty(init) == [] {
        NothingToAdd(rest, init);
      }
      if last != "" && |Kept(rest, following)| == |NonEmpty(following)| {
        assert Kept(rest, following) == Kept(rest, init) + [last];
      }
    }
  }

  lemma {:induction false} NothingToAdd(rest: string, following: seq<string>)
    requires NonEmpty(following) == []
    ensures Size(rest, following) == |rest|
    decreases |following|
  {
    if following != [] {
      NothingToAdd(rest, following[..|following| - 1]);
    }
  }

  lemma SegmentBounded(stamp: Stamp, lines: seq<string>, a: nat, b: nat)
    requires a < b <= |lines| && IsHead(stamp, lines[a]) && |lines[a]| <= MAX_LOG_ENTRY_BYTES
    ensures |Segment(stamp, lines, a, b).body| <= MAX_LOG_ENTRY_BYTES
  {
    BodyBounded(ParseTimestamp(stamp, lines[a]).value.1, lines[a + 1..b]);
  }

  /** With lines no longer than the limit, as the scanner guarantees, so is every body. */
  lemma BodiesBounded(stamp: Stamp, lines: seq<string>)
    requires forall i :: 0 <= i < |lines| ==> |lines[i]| <= 1_048_576
    ensures forall k :: 0 <= k < |Entries(stamp, lines)| ==> |Entries(stamp, lines)[k].body| <= 1_048_576
  {
    var heads, entries := Heads(stamp, lines), Entries(stamp, lines);
    EntriesAreSegments(stamp, lines);
    forall k | 0 <= k < |entries|
      ensures |entries[k].body| <= MAX_LOG_ENTRY_BYTES
    {
      SegmentBounded(stamp, lines, heads[k], SegmentEnd(lines, heads, k));
    }
  }

  // ---- Getting the lines back ----

  /** What a timestamped line loses: its first token and the space after it. */
  function Prefix(line: string): string {
    line[..IndexByte(line, ' ') + 1]
  }

  function Prefixes(stamp: Stamp, lines: seq<string>): seq<string>
    decreases |lines|
  {
    if lines == [] then []
    else
      var n := |lines| - 1;
      Prefixes(stamp, lines[..n]) + if IsHead(stamp, lines[n]) then [Prefix(lines[n])] else []
  }

  /** Splits every body at its newlines and puts the prefix back in front of its first line. */
  function Restore(prefixes: seq<string>, bodies: seq<string>): seq<string>
    requires |prefixes| == |bodies|
    decreases |bodies|
  {
    if bodies == [] then []
    else
      var n := |bodies| - 1;
      Restore(prefixes[..n], bodies[..n]) + RestoreOne(prefixes[n], bodies[n])
  }

  function Bodies(entries: seq<Entry>): (bodies: seq<string>)
    ensures |bodies| == |entries|
    ensures forall i :: 0 <= i < |entries| ==> bodies[i] == entries[i].body
  {
    seq(|entries|, i requires 0 <= i < |entries| => entries[i].body)
  }

  function RestoreOne(prefix: string, body: string): seq<string> {
    var parts := Split(body, '\n');
    [prefix + parts[0]] + parts[1..]
  }

  /** The line enters some record. */
  predicate Accepts(stamp: Stamp, r: Reading, line: string) {
    IsHead(stamp, line) || (line != "" && r.current.Some? && Fits(r.current.value.body, line))
  }

  function Accepted(stamp: Stamp, lines: seq<string>): seq<string>
    decreases |lines|
  {
    if lines == [] then []
    else
      var init, last := lines[..|lines| - 1], lines[|lines| - 1];
      Accepted(stamp, init) + if Accepts(stamp, ReadAll(stamp, NOTHING_READ, init), last) then [last] else []
  }

  ghost predicate SingleLines(lines: seq<string>) {
    forall i :: 0 <= i < |lines| ==> '\n' !in lines[i]
  }

  lemma RestoreHead(line: string, stamp: Stamp)
    requires IsHead(stamp, line) && '\n' !in line
    ensures RestoreOne(Prefix(line), ParseTimestamp(stamp, line).value.1) == [line]
  {
    var i := IndexByte(line, ' ');
    var rest := line[i + 1..];
    assert line == line[..i + 1] + rest;
    assert '\n' !in rest;
    assert Split(rest, '\n') == [rest];
  }

  lemma RestoreExtended(prefix: string, body: string, line: string)
    requires '\n' !in line && line != "" && Fits(body, line)
    ensures RestoreOne(prefix, Extend(body, line)) == RestoreOne(prefix, body) + [line]
  {
    SplitAppend(body, '\n', line);
    assert Extend(body, line) == body + ['\n'] + line;
    PrefixFirst(prefix, Split(body, '\n'), line);
  }

  lemma PrefixFirst(prefix: string, parts: seq<string>, line: string)
    requires parts != []
    ensures [prefix + (parts + [line])[0]] + (parts + [line])[1..] == [prefix + parts[0]] + parts[1..] + [line]
  {
    assert (parts + [line])[1..] == parts[1..] + [line];
  }

  lemma RestoreMore(prefixes: seq<string>, bodies: seq<string>, prefix: string, body: string)
    requires |prefixes| == |bodies|
    ensures Restore(prefixes + [prefix], bodies + [body]) == Restore(prefixes, bodies) + RestoreOne(prefix, body)
  {
    assert (prefixes + [prefix])[..|bodies|] == prefixes && (bodies + [body])[..|bodies|] == bodies;
  }

  lemma BodiesSnoc(entries: seq<Entry>, entry: Entry)
    ensures Bodies(entries + [entry]) == Bodies(entries) + [entry.body]
  {
  }

  function Gained(body: string, line: string): seq<string> {
    if line != "" && Fits(body, line) then [line] else []
  }

  lemma RestoreOneMore(prefix: string, body: string, line: string)
    requires '\n' !in line
    ensures RestoreOne(prefix, Extend(body, line)) == RestoreOne(prefix, body) + Gained(body, line)
  {
    if line != "" && Fits(body, line) {
      RestoreExtended(prefix, body, line);
    }
  }

  lemma RestoreContinued(prefixes: seq<string>, prefix: string, done: seq<string>, body: string, line: string)
    requires '\n' !in line && |prefixes| == |done|
    ensures Restore(prefixes + [prefix], done + [Extend(body, line)])
            == Restore(prefixes + [prefix], done + [body]) + Gained(body, line)
  {
    RestoreOneMore(prefix, body, line);
    RestoreMore(prefixes, done, prefix, body);
    RestoreMore(prefixes, done, prefix, Extend(body, line));
    SequenceAssociative(Restore(prefixes, done), RestoreOne(prefix, body), Gained(body, line));
  }

  lemma SequenceAssociative(a: seq<string>, b: seq<string>, c: seq<string>)
    ensures a + (b + c) == a + b + c
  {
  }

  lemma RestoreAtHead(r: Reading, line: string, prefixes: seq<string>, stamp: Stamp, time: int, rest: string)
    requires '\n' !in line && |prefixes| == |r.Close()| && ParseTimestamp(stamp, line) == Some((time, rest))
    ensures Restore(prefixes + [Prefix(line)], Bodies(r.Close() + [Entry(time, rest)]))
            == Restore(prefixes, Bodies(r.Close())) + [line]
  {
    BodiesSnoc(r.Close(), Entry(time, rest));
    RestoreMore(prefixes, Bodies(r.Close()), Prefix(line), rest);
    RestoreHead(line, stamp);
  }

  lemma RestoreLonger(prefixes: seq<string>, done: seq<string>, body: string, line: string)
    requires '\n' !in line && |prefixes| == |done| + 1
    ensures Restore(prefixes, done + [Extend(body, line)]) == Restore(prefixes, done + [body]) + Gained(body, line)
  {
    var front, prefix := prefixes[..|done|], prefixes[|done|];
    assert prefixes == front + [prefix];
    RestoreContinued(front, prefix, done, body, line);
  }

  lemma RestoreAtContinuation(done: seq<Entry>, line: string, prefixes: seq<string>, entry: Entry, extended: Entry)
    requires '\n' !in line && |prefixes| == |done| + 1 && extended.body == Extend(entry.body, line)
    ensures Restore(prefixes, Bodies(done + [extended]))
            == Restore(prefixes, Bodies(done + [entry])) + Gained(entry.body, line)
  {
    BodiesSnoc(done, entry);
    BodiesSnoc(done, extended);
    RestoreLonger(prefixes, Bodies(done), entry.body, line);
  }

  lemma RestoreNext(stamp: Stamp, r: Reading, line: string, prefixes: seq<string>, accepted: seq<string>)
    requires '\n' !in line && |prefixes| == |r.Close()| && Restore(prefixes, Bodies(r.Close())) == accepted
    ensures var prefixes' := prefixes + if IsHead(stamp, line) then [Prefix(line)] else [];
            && |prefixes'| == |Read(stamp, r, line).Close()|
            && Restore(prefixes', Bodies(Read(stamp, r, line).Close()))
               == accepted + if Accepts(stamp, r, line) then [line] else []
  {
    match ParseTimestamp(stamp, line)
    case Some((time, rest)) =>
      RestoreAtHead(r, line, prefixes, stamp, time, rest);
    case None =>
      assert prefixes + [] == prefixes && accepted + [] == accepted;
      if r.current.Some? {
        var entry := r.current.value;
        RestoreAtContinuation(r.done, line, prefixes, entry, entry.(body := Extend(entry.body, line)));
      }
  }

  /** Splitting the bodies and putting the timestamps back gives exactly the accepted lines, in order. */
  lemma {:induction false} RoundTrip(stamp: Stamp, lines: seq<string>)
    requires SingleLines(lines)
    ensures |Prefixes(stamp, lines)| == |Entries(stamp, lines)|
    ensures Restore(Prefixes(stamp, lines), Bodies(Entries(stamp, lines))) == Accepted(stamp, lines)
    decreases |lines|
  {
    if lines != [] {
      var n := |lines| - 1;
      RoundTrip(stamp, lines[..n]);
      RestoreNext(stamp, ReadAll(stamp, NOTHING_READ, lines[..n]), lines[n], Prefixes(stamp, lines[..n]),
                  Accepted(stamp, lines[..n]));
    }
  }

  // ---- When nothing is lost ----

  /** Before the first timestamped line there are only empty ones. */
  ghost predicate NoOrphans(lines: seq<string>, heads: seq<nat>) {
    forall i :: 0 <= i < |lines| && (heads == [] || i < heads[0]) ==> lines[i] == ""
  }

  /** There is nothing to add, or everything together fits. */
  predicate FitsAll(rest: string, following: seq<string>) {
    NonEmpty(following) == [] || Size(rest, following) <= 1_048_576
  }

  predicate SegmentFits(stamp: Stamp, lines: seq<string>, a: nat, b: nat)
    requires a < b <= |lines| && IsHead(stamp, lines[a])
  {
    FitsAll(ParseTimestamp(stamp, lines[a]).value.1, lines[a + 1..b])
  }

  /** Every segment fits as a whole. */
  ghost predicate SegmentsFit(stamp: Stamp, lines: seq<string>, heads: seq<nat>)
    requires ValidHeads(stamp, lines, heads)
  {
    forall k :: 0 <= k < |heads| ==> SegmentFits(stamp, lines, heads[k], SegmentEnd(lines, heads, k))
  }

  lemma FitsAllNext(rest: string, following: seq<string>)
    requires following != []
    ensures var init, last := following[..|following| - 1], following[|following| - 1];
            FitsAll(rest, following) <==> FitsAll(rest, init) && (last == "" || Fits(Body(rest, init), last))
  {
    var init := following[..|following| - 1];
    KeptAllIff(rest, init);
    if NonEmpty(init) == [] {
      NothingToAdd(rest, init);
    }
  }

  lemma SegmentFitsInPrefix(stamp: Stamp, lines: seq<string>, n: nat, a: nat, b: nat)
    requires a < b <= n <= |lines| && IsHead(stamp, lines[a])
    ensures SegmentFits(stamp, lines[..n], a, b) == SegmentFits(stamp, lines, a, b)
  {
    assert lines[..n][a + 1..b] == lines[a + 1..b];
  }

  lemma SegmentFitsNext(stamp: Stamp, lines: seq<string>, a: nat, n: nat)
    requires a < n < |lines| && IsHead(stamp, lines[a])
    ensures SegmentFits(stamp, lines, a, n + 1)
            <==> SegmentFits(stamp, lines, a, n) && (lines[n] == "" || Fits(Segment(stamp, lines, a, n).body, lines[n]))
  {
    var following := lines[a + 1..n + 1];
    assert following[..|following| - 1] == lines[a + 1..n];
    FitsAllNext(ParseTimestamp(stamp, lines[a]).value.1, following);
  }

  /** All segments but the last one fit. */
  ghost predicate EarlierFit(stamp: Stamp, lines: seq<string>, heads: seq<nat>)
    requires ValidHeads(stamp, lines, heads)
  {
    forall k :: 0 <= k < |heads| - 1 ==> SegmentFits(stamp, lines, heads[k], heads[k + 1])
  }

  lemma LastAndEarlier(stamp: Stamp, lines: seq<string>, heads: seq<nat>, m: nat)
    requires ValidHeads(stamp, lines, heads) && m + 1 == |heads|
    ensures SegmentsFit(stamp, lines, heads)
            <==> EarlierFit(stamp, lines, heads) && SegmentFits(stamp, lines, heads[m], |lines|)
  {
    if SegmentsFit(stamp, lines, heads) {
      forall k | 0 <= k < m
        ensures SegmentFits(stamp, lines, heads[k], heads[k + 1])
      {
        assert SegmentEnd(lines, heads, k) == heads[k + 1];
      }
    }
    assert SegmentEnd(lines, heads, m) == |lines|;
  }

  lemma EarlierFitInPrefix(stamp: Stamp, lines: seq<string>, init: seq<string>, n: nat, heads: seq<nat>)
    requires n + 1 == |lines| && init == lines[..n]
    requires ValidHeads(stamp, lines, heads) && ValidHeads(stamp, init, heads)
    ensures EarlierFit(stamp, lines, heads) <==> EarlierFit(stamp, init, heads)
  {
    forall k | 0 <= k < |heads| - 1
      ensures SegmentFits(stamp, lines, heads[k], heads[k + 1]) <==> SegmentFits(stamp, init, heads[k], heads[k + 1])
    {
      SegmentFitsInPrefix(stamp, lines, n, heads[k], heads[k + 1]);
    }
  }

  lemma ContinuationFits(stamp: Stamp, lines: seq<string>, init: seq<string>, n: nat, heads: seq<nat>, m: nat)
    requires n + 1 == |lines| && init == lines[..n] && m + 1 == |heads|
    requires ValidHeads(stamp, lines, heads) && ValidHeads(stamp, init, heads)
    ensures SegmentsFit(stamp, lines, heads)
            <==> SegmentsFit(stamp, init, heads)
                 && (lines[n] == "" || Fits(Segment(stamp, init, heads[m], n).body, lines[n]))
  {
    LastAndEarlier(stamp, lines, heads, m);
    LastAndEarlier(stamp, init, heads, m);
    EarlierFitInPrefix(stamp, lines, init, n, heads);
    SegmentFitsInPrefix(stamp, lines, n, heads[m], n);
    SegmentFitsNext(stamp, lines, heads[m], n);
    SegmentOfPrefix(stamp, lines, n, heads[m], n);
  }

  lemma HeadFits(stamp: Stamp, lines: seq<string>, heads: seq<nat>)
    requires lines != [] && IsHead(stamp, lines[|lines| - 1])
    requires ValidHeads(stamp, lines[..|lines| - 1], heads) && ValidHeads(stamp, lines, heads + [|lines| - 1])
    ensures SegmentsFit(stamp, lines, heads + [|lines| - 1]) <==> SegmentsFit(stamp, lines[..|lines| - 1], heads)
  {
    var n := |lines| - 1;
    var init, heads' := lines[..n], heads + [n];
    forall k | 0 <= k < |heads|
      ensures SegmentFits(stamp, lines, heads'[k], SegmentEnd(lines, heads', k))
              <==> SegmentFits(stamp, init, heads[k], SegmentEnd(init, heads, k))
    {
      var b := SegmentEnd(init, heads, k);
      assert init[heads[k] + 1..b] == lines[heads[k] + 1..b];
    }
    assert lines[n + 1..n + 1] == [];
  }

  lemma OrphansNext(lines: seq<string>, n: nat, heads: seq<nat>)
    requires n + 1 == |lines| && (heads != [] ==> heads[0] < n)
    ensures NoOrphans(lines, heads) <==> NoOrphans(lines[..n], heads) && (heads != [] || lines[n] == "")
    ensures NoOrphans(lines, heads + [n]) <==> NoOrphans(lines[..n], heads)
  {
    assert forall i :: 0 <= i < n ==> lines[..n][i] == lines[i];
  }

  lemma {:induction false} AcceptedBound(stamp: Stamp, lines: seq<string>)
    ensures |Accepted(stamp, lines)| <= |NonEmpty(lines)|
    decreases |lines|
  {
    if lines != [] {
      AcceptedBound(stamp, lines[..|lines| - 1]);
    }
  }

  lemma SameWithOneMore(a: seq<string>, b: seq<string>, last: string, inA: bool, inB: bool)
    requires |a| <= |b| && (inA ==> inB)
    ensures a + (if inA then [last] else []) == b + (if inB then [last] else []) <==> a == b && (inB ==> inA)
  {
    if inA {
      assert (a + [last])[..|a|] == a && (b + [last])[..|b|] == b;
    } else {
      assert a + [] == a && b + [] == b;
    }
  }

  /** Accepting everything is accepting everything before the last line, and the last line. */
  lemma AcceptedNext(stamp: Stamp, lines: seq<string>, init: seq<string>, last: string, r: Reading)
    requires lines != [] && init == lines[..|lines| - 1] && last == lines[|lines| - 1]
    requires r == ReadAll(stamp, NOTHING_READ, init)
    ensures Accepted(stamp, lines) == NonEmpty(lines)
            <==> Accepted(stamp, init) == NonEmpty(init) && (last == "" || Accepts(stamp, r, last))
  {
    AcceptedBound(stamp, init);
    assert Accepts(stamp, r, last) ==> last != "";
    SameWithOneMore(Accepted(stamp, init), NonEmpty(init), last, Accepts(stamp, r, last), last != "");
    assert NonEmpty(lines) == NonEmpty(init) + if last != "" then [last] else [];
  }

  /** Nothing precedes the first timestamp and every segment fits. */
  ghost predicate Lossless(stamp: Stamp, lines: seq<string>, heads: seq<nat>)
    requires ValidHeads(stamp, lines, heads)
  {
    NoOrphans(lines, heads) && SegmentsFit(stamp, lines, heads)
  }

  lemma LosslessHead(stamp: Stamp, lines: seq<string>, init: seq<string>, n: nat, heads: seq<nat>)
    requires n + 1 == |lines| && init == lines[..n] && IsHead(stamp, lines[n])
    requires ValidHeads(stamp, init, heads) && ValidHeads(stamp, lines, heads + [n])
    ensures Lossless(stamp, lines, heads + [n]) <==> Lossless(stamp, init, heads)
  {
    OrphansNext(lines, n, heads);
    HeadFits(stamp, lines, heads);
  }

  lemma LosslessContinuation(stamp: Stamp, lines: seq<string>, init: seq<string>, n: nat, heads: seq<nat>, m: nat)
    requires n + 1 == |lines| && init == lines[..n] && m + 1 == |heads|
    requires ValidHeads(stamp, init, heads) && ValidHeads(stamp, lines, heads)
    ensures Lossless(stamp, lines, heads)
            <==> Lossless(stamp, init, heads)
                 && (lines[n] == "" || Fits(Segment(stamp, init, heads[m], n).body, lines[n]))
  {
    OrphansNext(lines, n, heads);
    ContinuationFits(stamp, lines, init, n, heads, m);
  }

  lemma LosslessOrphan(stamp: Stamp, lines: seq<string>, init: seq<string>, n: nat)
    requires n + 1 == |lines| && init == lines[..n]
    ensures Lossless(stamp, lines, []) <==> Lossless(stamp, init, []) && lines[n] == ""
  {
    OrphansNext(lines, n, []);
  }

  lemma LosslessNext(stamp: Stamp, lines: seq<string>, init: seq<string>, n: nat, heads: seq<nat>, r: Reading)
    requires n + 1 == |lines| && init == lines[..n] && !IsHead(stamp, lines[n])
    requires ValidHeads(stamp, init, heads) && ValidHeads(stamp, lines, heads)
    requires r.current.Some? <==> heads != []
    requires heads != [] ==> r.current.value == Segment(stamp, init, heads[|heads| - 1], n)
    ensures Lossless(stamp, lines, heads)
            <==> Lossless(stamp, init, heads) && (lines[n] == "" || Accepts(stamp, r, lines[n]))
  {
    if heads != [] {
      LosslessContinuation(stamp, lines, init, n, heads, |heads| - 1);
    } else {
      LosslessOrphan(stamp, lines, init, n);
    }
  }

  lemma LosslessStep(stamp: Stamp, lines: seq<string>, init: seq<string>, n: nat, heads: seq<nat>, heads': seq<nat>,
                     r: Reading)
    requires n + 1 == |lines| && init == lines[..n]
    requires heads' == heads + if IsHead(stamp, lines[n]) then [n] else []
    requires ValidHeads(stamp, init, heads) && ValidHeads(stamp, lines, heads')
    requires r.current.Some? <==> heads != []
    requires heads != [] ==> r.current.value == Segment(stamp, init, heads[|heads| - 1], n)
    ensures Lossless(stamp, lines, heads')
            <==> Lossless(stamp, init, heads) && (lines[n] == "" || Accepts(stamp, r, lines[n]))
  {
    if IsHead(stamp, lines[n]) {
      LosslessHead(stamp, lines, init, n, heads);
    } else {
      assert heads' == heads;
      LosslessNext(stamp, lines, init, n, heads, r);
    }
  }

  /**
   * No line is lost, so that the restored lines are all the non-empty lines of the file, if and only if no
   * line precedes the first timestamp and every segment fits the size limit as a whole.
   */
  lemma {:induction false} NothingLostIff(stamp: Stamp, lines: seq<string>)
    ensures ValidHeads(stamp, lines, Heads(stamp, lines))
    ensures Accepted(stamp, lines) == NonEmpty(lines) <==> Lossless(stamp, lines, Heads(stamp, lines))
    decreases |lines|
  {
    HeadsAreTheHeads(stamp, lines);
    if lines != [] {
      var n := |lines| - 1;
      NothingLostIff(stamp, lines[..n]);
      NothingLostStep(stamp, lines, lines[..n], n, Heads(stamp, lines[..n]), Heads(stamp, lines));
    }
  }

  lemma NothingLostStep(stamp: Stamp, lines: seq<string>, init: seq<string>, n: nat, heads: seq<nat>, heads': seq<nat>)
    requires n + 1 == |lines| && init == lines[..n]
    requires heads == Heads(stamp, init) && heads' == heads + if IsHead(stamp, lines[n]) then [n] else []
    requires ValidHeads(stamp, init, heads) && ValidHeads(stamp, lines, heads')
    requires Accepted(stamp, init) == NonEmpty(init) <==> Lossless(stamp, init, heads)
    ensures Accepted(stamp, lines) == NonEmpty(lines) <==> Lossless(stamp, lines, heads')
  {
    var r := ReadAll(stamp, NOTHING_READ, init);
    AcceptedNext(stamp, lines, init, lines[n], r);
    CurrentIsLastSegment(stamp, init);
    LosslessStep(stamp, lines, init, n, heads, heads', r);
  }

  lemma CurrentIsLastSegment(stamp: Stamp, lines: seq<string>)
    ensures var heads, r := Heads(stamp, lines), ReadAll(stamp, NOTHING_READ, lines);
            && ValidHeads(stamp, lines, heads)
            && (r.current.Some? <==> heads != [])
            && (heads != [] ==> r.current.value == Segment(stamp, lines, heads[|heads| - 1], |lines|))
  {
    var heads, r := Heads(stamp, lines), ReadAll(stamp, NOTHING_READ, lines);
    EntriesAreSegments(stamp, lines);
    CurrentIffHead(stamp, lines);
    if heads != [] {
      assert r.Close()[|heads| - 1] == r.current.value;
    }
  }
}
