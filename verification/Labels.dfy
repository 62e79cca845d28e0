// The canonical label string of a job: lower-cased, sorted, joined with commas.
// It is computed twice in the receiver, once on a copy (for metrics) and once in place
// on the event's own slice (for trace resource attributes).
module Labels {
  import opened Basics
  import opened Text

  // ---- strings.ToLower on ASCII ----

  function LowerChar(c: char): char {
    if 'A' <= c <= 'Z' then (c as int - 'A' as int + 'a' as int) as char else c
  }

  function Lower(s: string): (r: string)
    ensures |r| == |s|
    ensures forall i :: 0 <= i < |s| ==> r[i] == LowerChar(s[i])
  {
    seq(|s|, i requires 0 <= i < |s| => LowerChar(s[i]))
  }

  function LowerAll(labels: seq<string>): (r: seq<string>)
    ensures |r| == |labels|
    ensures forall i :: 0 <= i < |labels| ==> r[i] == Lower(labels[i])
  {
    seq(|labels|, i requires 0 <= i < |labels| => Lower(labels[i]))
  }

  /** No byte of the text is a capital letter. */
  ghost predicate NoCapitals(s: string) {
    forall i :: 0 <= i < |s| ==> s[i] < 'A' || 'Z' < s[i]
  }

  /** Each capital letter becomes the letter 32 places on, and every other byte stays. */
  lemma LowerShifts(s: string)
    ensures |Lower(s)| == |s|
    ensures forall i :: 0 <= i < |s| ==>
              Lower(s)[i] as int == s[i] as int + if 'A' <= s[i] <= 'Z' then 32 else 0
    ensures NoCapitals(Lower(s))
  {
  }

  /** The bytes are equal, or a capital letter and its small one. */
  ghost predicate SameLetter(c: char, d: char) {
    || c == d
    || ('A' <= c <= 'Z' && d as int == c as int + 32)
    || ('A' <= d <= 'Z' && c as int == d as int + 32)
  }

  /** Two texts are equal up to case exactly when they agree at every place up to that shift. */
  lemma LowerEqualIff(a: string, b: string)
    ensures Lower(a) == Lower(b) <==> |a| == |b| && forall i :: 0 <= i < |a| ==> SameLetter(a[i], b[i])
  {
    LowerShifts(a);
    LowerShifts(b);
    if |a| == |b| {
      forall i | 0 <= i < |a|
        ensures Lower(a)[i] == Lower(b)[i] <==> SameLetter(a[i], b[i])
      {
      }
      if Lower(a) == Lower(b) {
        assert forall i :: 0 <= i < |a| ==> Lower(a)[i] == Lower(b)[i];
      }
    }
  }

  lemma LowerIdempotent(s: string)
    ensures Lower(Lower(s)) == Lower(s)
  {
  }

  lemma LowerKeepsCommas(s: string)
    ensures ',' in Lower(s) <==> ',' in s
  {
    forall i | 0 <= i < |s|
      ensures Lower(s)[i] == ',' <==> s[i] == ','
    {
    }
    if ',' in s {
      var i :| 0 <= i < |s| && s[i] == ',';
      assert Lower(s)[i] == ',';
    }
  }

  // ---- sort.Strings ----

  /** Byte-wise lexicographic order. */
  predicate Leq(a: string, b: string) {
    a == [] || (b != [] && (a[0] < b[0] || (a[0] == b[0] && Leq(a[1..], b[1..]))))
  }

  /** The first place where the texts differ, and the byte of `a` is the smaller one there. */
  ghost predicate SmallerAt(a: string, b: string, i: nat) {
    i < |a| && i < |b| && a[..i] == b[..i] && a[i] < b[i]
  }

  /** A text comes before those it begins, and before those with a greater byte at the first difference. */
  lemma {:induction false} LeqIsByteOrder(a: string, b: string)
    ensures Leq(a, b) <==> a <= b || exists i: nat :: SmallerAt(a, b, i)
  {
    if a != [] && b != [] {
      LeqIsByteOrder(a[1..], b[1..]);
      if a[0] == b[0] {
        assert a == [a[0]] + a[1..] && b == [b[0]] + b[1..];
        assert a[1..] <= b[1..] <==> a <= b;
        if i: nat :| SmallerAt(a[1..], b[1..], i) {
          assert a[..i + 1] == [a[0]] + a[1..][..i] && b[..i + 1] == [b[0]] + b[1..][..i];
          assert SmallerAt(a, b, i + 1);
        }
        if i: nat :| SmallerAt(a, b, i) {
          assert i > 0 && a[1..][..i - 1] == a[..i][1..] && b[1..][..i - 1] == b[..i][1..];
          assert SmallerAt(a[1..], b[1..], i - 1);
        }
      } else if a[0] < b[0] {
        assert SmallerAt(a, b, 0);
      } else {
        forall i: nat
          ensures !SmallerAt(a, b, i)
        {
          assert i > 0 && i < |a| && i < |b| ==> a[..i][0] == a[0] && b[..i][0] == b[0];
        }
      }
    }
  }

  lemma {:induction false} LeqTotal(a: string, b: string)
    ensures Leq(a, b) || Leq(b, a)
  {
    if a != [] && b != [] && a[0] == b[0] {
      LeqTotal(a[1..], b[1..]);
    }
  }

  lemma {:induction false} LeqAntisymmetric(a: string, b: string)
    requires Leq(a, b) && Leq(b, a)
    ensures a == b
  {
    if a != [] && b != [] {
      LeqAntisymmetric(a[1..], b[1..]);
      assert a == [a[0]] + a[1..] && b == [b[0]] + b[1..];
    }
  }

  lemma {:induction false} LeqTransitive(a: string, b: string, c: string)
    requires Leq(a, b) && Leq(b, c)
    ensures Leq(a, c)
  {
    if a != [] && a[0] == b[0] && b[0] == c[0] {
      LeqTransitive(a[1..], b[1..], c[1..]);
    }
  }

  ghost predicate IsSorted(s: seq<string>) {
    forall i, j :: 0 <= i < j < |s| ==> Leq(s[i], s[j])
  }

  function Insert(x: string, s: seq<string>): seq<string> {
    if s == [] || Leq(x, s[0]) then [x] + s else [s[0]] + Insert(x, s[1..])
  }

  function Sort(s: seq<string>): seq<string> {
    if s == [] then [] else Insert(s[0], Sort(s[1..]))
  }

  lemma HeadAndTail<T>(s: seq<T>)
    requires s != []
    ensures s == [s[0]] + s[1..] && multiset(s) == multiset{s[0]} + multiset(s[1..])
    ensures s[0] in multiset(s)
  {
    assert s == [s[0]] + s[1..];
  }

  lemma {:induction false} InsertElements(x: string, s: seq<string>)
    ensures multiset(Insert(x, s)) == multiset(s) + multiset{x}
    ensures |Insert(x, s)| == |s| + 1
  {
    if s != [] && !Leq(x, s[0]) {
      HeadAndTail(s);
      InsertElements(x, s[1..]);
    }
  }

  lemma ElementAt(s: seq<string>, y: string) returns (i: nat)
    requires y in multiset(s)
    ensures i < |s| && s[i] == y
  {
    i :| 0 <= i < |s| && s[i] == y;
  }

  lemma {:induction false} InsertSorted(x: string, s: seq<string>)
    requires IsSorted(s)
    ensures IsSorted(Insert(x, s))
  {
    if s == [] {
    } else if Leq(x, s[0]) {
      forall j | 0 < j < |s|
        ensures Leq(x, s[j])
      {
        LeqTransitive(x, s[0], s[j]);
      }
    } else {
      LeqTotal(x, s[0]);
      InsertSorted(x, s[1..]);
      var t := Insert(x, s[1..]);
      InsertElements(x, s[1..]);
      forall i | 0 <= i < |t|
        ensures Leq(s[0], t[i])
      {
        assert t[i] in multiset(t);
        if t[i] != x {
          var j := ElementAt(s[1..], t[i]);
        }
      }
    }
  }

  lemma {:induction false} SortProps(s: seq<string>)
    ensures IsSorted(Sort(s)) && multiset(Sort(s)) == multiset(s) && |Sort(s)| == |s|
  {
    if s != [] {
      SortProps(s[1..]);
      InsertSorted(s[0], Sort(s[1..]));
      InsertElements(s[0], Sort(s[1..]));
      HeadAndTail(s);
    }
  }

  /** A sorted sequence is determined by its multiset, so how the library sorts does not matter. */
  lemma {:induction false} SortedUnique(s: seq<string>, t: seq<string>)
    requires IsSorted(s) && IsSorted(t) && multiset(s) == multiset(t)
    ensures s == t
  {
    if s == [] || t == [] {
      assert |multiset(s)| == |s| && |multiset(t)| == |t|;
    } else {
      HeadAndTail(s);
      HeadAndTail(t);
      assert t[0] in multiset(s) && s[0] in multiset(t);
      HeadIsLeast(s, t[0]);
      HeadIsLeast(t, s[0]);
      LeqAntisymmetric(s[0], t[0]);
      assert multiset(s[1..]) == multiset(s) - multiset{s[0]};
      assert multiset(t[1..]) == multiset(t) - multiset{t[0]};
      SortedUnique(s[1..], t[1..]);
    }
  }

  lemma HeadIsLeast(s: seq<string>, x: string)
    requires IsSorted(s) && x in multiset(s)
    ensures Leq(s[0], x)
  {
    var i :| 0 <= i < |s| && s[i] == x;
    LeqTotal(x, x);
  }

  /** The library sort. */
  method SortStrings(a: array<string>)
    modifies a
    ensures a[..] == Sort(old(a[..]))
  {
    SortProps(a[..]);
    var sorted := Sort(a[..]);
    forall i | 0 <= i < a.Length {
      a[i] := sorted[i];
    }
  }

  // ---- The label string ----

  const NO_LABELS: string := "no labels"

  /** What both computations promise. */
  function LabelString(labels: seq<string>): string {
    if labels == [] then NO_LABELS else Join(Sort(LowerAll(labels)), ',')
  }

  lemma {:induction false} JoinNoCapitals(parts: seq<string>)
    requires forall p :: p in parts ==> NoCapitals(p)
    ensures NoCapitals(Join(parts, ','))
  {
    if |parts| > 1 {
      JoinNoCapitals(parts[1..]);
      assert NoCapitals(parts[0]);
    }
  }

  /** However the labels are written, their string has no capital letter. */
  lemma LabelStringIsLower(labels: seq<string>)
    ensures NoCapitals(LabelString(labels))
  {
    var lowered := LowerAll(labels);
    SortProps(lowered);
    forall p | p in Sort(lowered)
      ensures NoCapitals(p)
    {
      assert p in multiset(Sort(lowered));
      assert p in multiset(lowered);
      var j :| 0 <= j < |lowered| && lowered[j] == p;
      LowerShifts(labels[j]);
    }
    JoinNoCapitals(Sort(lowered));
  }

  /** Examples. */
  lemma LabelsSpelledOut()
    ensures LabelString([]) == "no labels"
    ensures LabelString(["Linux", "ARM64"]) == "arm64,linux"
  {
    var labels := ["Linux", "ARM64"];
    assert Lower("Linux") == "linux" && Lower("ARM64") == "arm64";
    assert LowerAll(labels) == ["linux", "arm64"];
    assert ["linux", "arm64"][1..] == ["arm64"] && ["arm64"][1..] == [];
    assert Sort(["arm64"]) == ["arm64"];
    assert !Leq("linux", "arm64");
    assert ["arm64"][1..] == [] && Insert("linux", ["arm64"]) == ["arm64"] + ["linux"];
    assert Sort(LowerAll(labels)) == ["arm64", "linux"];
    assert ["arm64", "linux"][1..] == ["linux"];
    assert Join(["arm64", "linux"], ',') == "arm64" + "," + "linux";
  }

  /** The label string for metrics: works on a copy, so the event's labels stay as they are. */
  method SortedLabels(labels: seq<string>) returns (s: string)
    ensures s == LabelString(labels)
    ensures NoCapitals(s)
  {
    LabelStringIsLower(labels);
    if |labels| == 0 {
      return NO_LABELS;
    }
    var lowered := new string[|labels|];
    for i := 0 to |labels|
      invariant forall j :: 0 <= j < i ==> lowered[j] == Lower(labels[j])
    {
      lowered[i] := Lower(labels[i]);
    }
    assert lowered[..] == LowerAll(labels);
    SortStrings(lowered);
    return Join(lowered[..], ',');
  }

  /** The label attribute of a job's trace resource: lower-cases and sorts the event's own labels. */
  method LabelsAttribute(labels: array<string>) returns (s: string)
    modifies labels
    ensures s == LabelString(old(labels[..]))
    ensures labels[..] == Sort(LowerAll(old(labels[..])))
    ensures LabelString(labels[..]) == s
    ensures NoCapitals(s)
  {
    LabelStringIsLower(labels[..]);
    MutationIsInvisible(labels[..]);
    if labels.Length > 0 {
      for i := 0 to labels.Length
        invariant forall j :: 0 <= j < i ==> labels[j] == Lower(old(labels[j]))
        invariant forall j :: i <= j < labels.Length ==> labels[j] == old(labels[j])
      {
        labels[i] := Lower(labels[i]);
      }
      assert labels[..] == LowerAll(old(labels[..]));
      SortProps(labels[..]);
      SortStrings(labels);
      s := Join(labels[..], ',');
    } else {
      assert labels[..] == [];
      s := NO_LABELS;
    }
  }

  /** The in-place mutation does not change the label string: metrics see the same one before and after it. */
  lemma MutationIsInvisible(labels: seq<string>)
    ensures LabelString(Sort(LowerAll(labels))) == LabelString(labels)
    ensures labels == [] ==> Sort(LowerAll(labels)) == []
  {
    var lowered := LowerAll(labels);
    var sorted := Sort(lowered);
    SortProps(lowered);
    forall i | 0 <= i < |sorted|
      ensures Lower(sorted[i]) == sorted[i]
    {
      assert sorted[i] in multiset(sorted);
      assert sorted[i] in multiset(lowered);
      var j :| 0 <= j < |lowered| && lowered[j] == sorted[i];
      LowerIdempotent(labels[j]);
    }
    assert LowerAll(sorted) == sorted;
    SortProps(sorted);
    SortedUnique(Sort(sorted), sorted);
  }

  ghost predicate CommaFree(labels: seq<string>) {
    forall i :: 0 <= i < |labels| ==> ',' !in labels[i]
  }

  /** The single label that reads like the text for no label at all. */
  predicate Impostor(labels: seq<string>) {
    |labels| == 1 && Lower(labels[0]) == NO_LABELS
  }

  lemma SortedParts(labels: seq<string>)
    requires CommaFree(labels) && labels != []
    ensures Split(LabelString(labels), ',') == Sort(LowerAll(labels))
  {
    var lowered := LowerAll(labels);
    var sorted := Sort(lowered);
    SortProps(lowered);
    forall p | p in sorted
      ensures ',' !in p
    {
      assert p in multiset(sorted);
      assert p in multiset(lowered);
      var j :| 0 <= j < |lowered| && lowered[j] == p;
      LowerKeepsCommas(labels[j]);
    }
    SplitJoin(sorted, ',');
  }

  lemma NoLabelsParts()
    ensures Split(NO_LABELS, ',') == [NO_LABELS]
  {
    assert ',' !in NO_LABELS;
  }

  /** An empty list of labels and a single label "no labels" (in any case) read the same, and nothing else does. */
  lemma ReadsLikeNoLabels(labels: seq<string>)
    requires CommaFree(labels)
    ensures LabelString(labels) == NO_LABELS <==> labels == [] || Impostor(labels)
  {
    if labels != [] {
      SortedParts(labels);
      NoLabelsParts();
      SortProps(LowerAll(labels));
      if |labels| == 1 {
        assert Sort(LowerAll(labels)) == [Lower(labels[0])];
      }
    }
  }

  /**
   * The label string is a canonical form: for comma-free labels two lists have the same string exactly when
   * they have the same labels up to case and order, or are both readings of "no labels".
   */
  lemma LabelStringCanonical(a: seq<string>, b: seq<string>)
    requires CommaFree(a) && CommaFree(b)
    ensures LabelString(a) == LabelString(b) <==>
              || multiset(LowerAll(a)) == multiset(LowerAll(b))
              || ((a == [] || Impostor(a)) && (b == [] || Impostor(b)))
  {
    ReadsLikeNoLabels(a);
    ReadsLikeNoLabels(b);
    SortProps(LowerAll(a));
    SortProps(LowerAll(b));
    assert |multiset(LowerAll(a))| == |a| && |multiset(LowerAll(b))| == |b|;
    if multiset(LowerAll(a)) == multiset(LowerAll(b)) {
      SortedUnique(Sort(LowerAll(a)), Sort(LowerAll(b)));
    }
    if a != [] && b != [] && LabelString(a) == LabelString(b) {
      SortedParts(a);
      SortedParts(b);
    }
  }

  lemma SortOne(x: string)
    ensures Sort([x]) == [x]
  {
    assert [x][1..] == [];
  }

  lemma SortTwo(x: string, y: string)
    requires Leq(x, y)
    ensures Sort([x, y]) == [x, y]
  {
    SortOne(y);
    assert [x, y][1..] == [y];
  }

  lemma LowerSamples()
    ensures LowerAll(["a,b"]) == ["a,b"] && LowerAll(["a", "b"]) == ["a", "b"]
  {
    assert Lower("a,b") == "a,b" && Lower("a") == "a" && Lower("b") == "b";
  }

  /** With a comma inside a label the string no longer tells the lists apart. */
  lemma CommasCollide()
    ensures LabelString(["a,b"]) == LabelString(["a", "b"])
    ensures multiset(LowerAll(["a,b"])) != multiset(LowerAll(["a", "b"]))
  {
    LowerSamples();
    SortOne("a,b");
    SortTwo("a", "b");
    assert Join(["a", "b"], ',') == "a" + "," + Join(["b"], ',');
    assert |multiset(["a,b"])| == 1 && |multiset(["a", "b"])| == 2;
  }

  lemma LowerAppend(a: string, b: string)
    ensures Lower(a + b) == Lower(a) + Lower(b)
  {
  }

  /** Lower-casing a joined text is joining the lower-cased parts. */
  lemma {:induction false} LowerJoin(parts: seq<string>)
    ensures Lower(Join(parts, ',')) == Join(LowerAll(parts), ',')
  {
    if |parts| > 1 {
      LowerJoin(parts[1..]);
      assert LowerAll(parts)[1..] == LowerAll(parts[1..]);
      LowerAppend(parts[0] + ",", Join(parts[1..], ','));
      LowerAppend(parts[0], ",");
      assert Lower(",") == ",";
    }
  }

  lemma SortedIff(s: seq<string>)
    ensures Sort(s) == s <==> IsSorted(s)
  {
    SortProps(s);
    if IsSorted(s) {
      SortedUnique(Sort(s), s);
    }
  }

  lemma LowerAllCommaFree(parts: seq<string>)
    requires forall p :: p in parts ==> ',' !in p
    ensures forall p :: p in LowerAll(parts) ==> ',' !in p
  {
    forall i | 0 <= i < |parts|
      ensures ',' !in LowerAll(parts)[i]
    {
      assert parts[i] in parts;
      LowerKeepsCommas(parts[i]);
    }
  }

  lemma JoinedInOrderIff(parts: seq<string>)
    requires parts != [] && forall p :: p in parts ==> ',' !in p
    ensures Join(Sort(parts), ',') == Join(parts, ',') <==> IsSorted(parts)
  {
    SortedIff(parts);
    SortProps(parts);
    forall p | p in Sort(parts)
      ensures ',' !in p
    {
      assert p in multiset(Sort(parts));
      assert p in multiset(parts);
    }
    SplitJoin(parts, ',');
    SplitJoin(Sort(parts), ',');
  }

  /**
   * One label reads like the list of its comma-separated parts if and only if the parts, lower-cased, are
   * already in order.
   */
  lemma CommaCollidesIff(x: string)
    ensures LabelString([x]) == LabelString(Split(x, ',')) <==> IsSorted(LowerAll(Split(x, ',')))
  {
    var parts := Split(x, ',');
    SplitHasNoSeparator(x, ',');
    LowerAllCommaFree(parts);
    JoinSplit(x, ',');
    LowerJoin(parts);
    assert LowerAll([x]) == [Lower(x)];
    SortOne(Lower(x));
    JoinedInOrderIff(LowerAll(parts));
  }

  /** The comma-separated parts of the texts, one after the other. */
  function AllParts(texts: seq<string>): seq<string> {
    if texts == [] then [] else Split(texts[0], ',') + AllParts(texts[1..])
  }

  lemma {:induction false} SplitOfJoin(texts: seq<string>)
    requires texts != []
    ensures Split(Join(texts, ','), ',') == AllParts(texts)
  {
    if |texts| == 1 {
      assert texts == [texts[0]] && AllParts(texts[1..]) == [];
      assert Split(texts[0], ',') + [] == Split(texts[0], ',');
    } else {
      SplitOfJoin(texts[1..]);
      SplitConcat(texts[0], Join(texts[1..], ','), ',');
    }
  }

  /** What a label string lists: the parts of the sorted lower-cased labels, or the text for no labels. */
  function Listed(labels: seq<string>): seq<string> {
    if labels == [] then [NO_LABELS] else AllParts(Sort(LowerAll(labels)))
  }

  /**
   * For any labels, with commas or without, two lists give the same string if and only if the comma-separated
   * parts of their sorted lower-cased labels are the same.
   */
  lemma LabelStringEqualIff(a: seq<string>, b: seq<string>)
    ensures LabelString(a) == LabelString(b) <==> Listed(a) == Listed(b)
  {
    ListedIsSplit(a);
    ListedIsSplit(b);
    JoinSplit(LabelString(a), ',');
    JoinSplit(LabelString(b), ',');
  }

  lemma ListedIsSplit(labels: seq<string>)
    ensures Split(LabelString(labels), ',') == Listed(labels)
  {
    if labels == [] {
      NoLabelsParts();
    } else {
      SortProps(LowerAll(labels));
      SplitOfJoin(Sort(LowerAll(labels)));
    }
  }
}
