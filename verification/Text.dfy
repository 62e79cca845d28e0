// Byte strings as the receivers handle them: searching, splitting and joining on a
// separator, decimal numerals (Go's %d and strconv.Atoi), and separator-built keys.
// A `char` stands for one byte.
module Text {
  import opened Basics

  /** strings.IndexByte / bytes.IndexByte. */
  function IndexByte(s: string, c: char): (i: int)
    ensures -1 <= i < |s|
    ensures i == -1 <==> c !in s
    ensures i >= 0 ==> s[i] == c && c !in s[..i]
  {
    if s == [] then -1
    else if s[0] == c then 0
    else
      var j := IndexByte(s[1..], c);
      assert s == [s[0]] + s[1..];
      if j == -1 then -1
      else
        assert s[..j + 1] == [s[0]] + s[1..][..j];
        j + 1
  }

  lemma {:induction false} IndexOfFirst(a: string, c: char, b: string)
    requires c !in a
    ensures IndexByte(a + [c] + b, c) == |a|
  {
    if a != [] {
      IndexOfFirst(a[1..], c, b);
      assert (a + [c] + b)[1..] == a[1..] + [c] + b;
    }
  }

  // ---- Fields separated by a byte ----

  /** The first field of a separated string is determined when it is free of the separator. */
  lemma FirstFieldUnique(a: string, x: string, b: string, y: string, c: char)
    requires c !in a && c !in b
    requires a + [c] + x == b + [c] + y
    ensures a == b && x == y
  {
    IndexOfFirst(a, c, x);
    IndexOfFirst(b, c, y);
    var s := a + [c] + x;
    assert a == s[..|a|] && x == s[|a| + 1..];
    assert b == s[..|b|] && y == s[|b| + 1..];
  }

  lemma LastSeparator(a: string, c: char, x: string)
    requires c !in x
    ensures (a + [c] + x)[|a|] == c
    ensures forall i :: |a| < i < |a + [c] + x| ==> (a + [c] + x)[i] != c
  {
    forall i | |a| < i < |a + [c] + x|
      ensures (a + [c] + x)[i] != c
    {
      assert (a + [c] + x)[i] == x[i - |a| - 1];
    }
  }

  /** So is the last one. */
  lemma LastFieldUnique(a: string, x: string, b: string, y: string, c: char)
    requires c !in x && c !in y
    requires a + [c] + x == b + [c] + y
    ensures a == b && x == y
  {
    LastSeparator(a, c, x);
    LastSeparator(b, c, y);
    var s := a + [c] + x;
    assert |a| == |b|;
    assert a == s[..|a|] && x == s[|a| + 1..];
    assert b == s[..|b|] && y == s[|b| + 1..];
  }

  // ---- Join and split ----

  /** strings.Join. */
  function Join(parts: seq<string>, c: char): string {
    if parts == [] then ""
    else if |parts| == 1 then parts[0]
    else parts[0] + [c] + Join(parts[1..], c)
  }

  lemma {:induction false} JoinSnoc(parts: seq<string>, c: char, x: string)
    requires parts != []
    ensures Join(parts + [x], c) == Join(parts, c) + [c] + x
  {
    if |parts| > 1 {
      assert (parts + [x])[1..] == parts[1..] + [x];
      JoinSnoc(parts[1..], c, x);
    } else {
      assert (parts + [x])[1..] == [x];
    }
  }

  /** strings.Split: the maximal runs of bytes other than the separator; never empty. */
  function Split(s: string, c: char): (parts: seq<string>)
    ensures parts != []
    decreases |s|
  {
    var i := IndexByte(s, c);
    if i == -1 then [s] else [s[..i]] + Split(s[i + 1..], c)
  }

  lemma SplitAtFirst(a: string, c: char, b: string)
    requires c !in a
    ensures Split(a + [c] + b, c) == [a] + Split(b, c)
  {
    IndexOfFirst(a, c, b);
    var s := a + [c] + b;
    assert s[..|a|] == a && s[|a| + 1..] == b;
  }

  lemma {:induction false} SplitJoin(parts: seq<string>, c: char)
    requires parts != [] && forall p :: p in parts ==> c !in p
    ensures Split(Join(parts, c), c) == parts
  {
    if |parts| > 1 {
      SplitJoin(parts[1..], c);
      SplitAtFirst(parts[0], c, Join(parts[1..], c));
    } else {
      assert Join(parts, c) == parts[0] && parts[0] in parts;
    }
  }

  lemma JoinCons(p: string, rest: seq<string>, c: char)
    requires rest != []
    ensures Join([p] + rest, c) == p + [c] + Join(rest, c)
  {
    assert ([p] + rest)[1..] == rest;
  }

  lemma SplitStep(s: string, c: char) returns (head: string, tail: string)
    requires c in s
    ensures s == head + [c] + tail && Split(s, c) == [head] + Split(tail, c)
  {
    var i := IndexByte(s, c);
    head, tail := s[..i], s[i + 1..];
    assert s == head + [c] + tail;
  }

  lemma {:induction false} JoinSplit(s: string, c: char)
    ensures Join(Split(s, c), c) == s
    decreases |s|
  {
    if c in s {
      var head, tail := SplitStep(s, c);
      JoinSplit(tail, c);
      JoinCons(head, Split(tail, c), c);
    } else {
      assert Split(s, c) == [s];
    }
  }

  lemma {:induction false} SplitHasNoSeparator(s: string, c: char)
    ensures forall p :: p in Split(s, c) ==> c !in p
    decreases |s|
  {
    if c in s {
      var i := IndexByte(s, c);
      assert Split(s, c) == [s[..i]] + Split(s[i + 1..], c);
      SplitHasNoSeparator(s[i + 1..], c);
    } else {
      assert Split(s, c) == [s];
    }
  }

  lemma {:induction false} JoinConcat(p: seq<string>, q: seq<string>, c: char)
    requires p != [] && q != []
    ensures Join(p + q, c) == Join(p, c) + [c] + Join(q, c)
  {
    var rest := p[1..] + q;
    assert p + q == [p[0]] + rest;
    JoinCons(p[0], rest, c);
    if |p| > 1 {
      JoinConcat(p[1..], q, c);
    } else {
      assert rest == q;
    }
  }

  /** Splitting what a separator joins is splitting the two sides. */
  lemma SplitConcat(a: string, b: string, c: char)
    ensures Split(a + [c] + b, c) == Split(a, c) + Split(b, c)
  {
    SplitHasNoSeparator(a, c);
    SplitHasNoSeparator(b, c);
    JoinSplit(a, c);
    JoinSplit(b, c);
    JoinConcat(Split(a, c), Split(b, c), c);
    SplitJoin(Split(a, c) + Split(b, c), c);
  }

  /** Appending a separator and a field appends one part. */
  lemma SplitAppend(s: string, c: char, last: string)
    requires c !in last
    ensures Split(s + [c] + last, c) == Split(s, c) + [last]
  {
    SplitConcat(s, last, c);
    assert Split(last, c) == [last];
  }

  // ---- Decimal numerals ----

  predicate IsDigit(c: char) {
    '0' <= c <= '9'
  }

  predicate AllDigits(s: string) {
    forall i :: 0 <= i < |s| ==> IsDigit(s[i])
  }

  function DigitChar(d: nat): (c: char)
    requires d < 10
    ensures IsDigit(c) && DigitValue(c) == d
  {
    ('0' as int + d) as char
  }

  function DigitValue(c: char): (d: nat)
    requires IsDigit(c)
    ensures d < 10
  {
    c as int - '0' as int
  }

  /** The shortest decimal numeral of a natural number. */
  function Digits(n: nat): string {
    if n < 10 then [DigitChar(n)] else Digits(n / 10) + [DigitChar(n % 10)]
  }

  /** Go's %d. */
  function Decimal(n: int): string {
    if n < 0 then "-" + Digits(-n) else Digits(n)
  }

  /** The number a run of digits denotes. */
  function Value(s: string): nat
    requires AllDigits(s)
  {
    if s == [] then 0 else Value(s[..|s| - 1]) * 10 + DigitValue(s[|s| - 1])
  }

  lemma {:induction false} DigitsProps(n: nat)
    ensures Digits(n) != [] && AllDigits(Digits(n))
    ensures Value(Digits(n)) == n
    ensures Digits(n)[0] == '0' ==> n == 0
  {
    if n >= 10 {
      DigitsProps(n / 10);
      var s := Digits(n);
      assert s[..|s| - 1] == Digits(n / 10);
    } else {
      assert Digits(n)[..0] == [];
    }
  }

  /** A digit string without a leading zero is the numeral of its value. */
  lemma {:induction false} NumeralOfValue(s: string)
    requires s != [] && AllDigits(s) && (s[0] != '0' || |s| == 1)
    ensures Digits(Value(s)) == s
    ensures s[0] != '0' ==> Value(s) > 0
  {
    var k := |s| - 1;
    if k == 0 {
      assert s[..0] == [];
      assert s == [s[0]];
    } else {
      NumeralOfValue(s[..k]);
      assert s == s[..k] + [s[k]];
      assert Value(s) / 10 == Value(s[..k]) && Value(s) % 10 == DigitValue(s[k]);
    }
  }

  /** The number a numeral with an optional sign denotes, of any size. */
  function Number(s: string): Option<int> {
    var signed := s != [] && (s[0] == '-' || s[0] == '+');
    var digits := if signed then s[1..] else s;
    if digits == [] || !AllDigits(digits) then None
    else if signed && s[0] == '-' then Some(0 - Value(digits))
    else Some(Value(digits))
  }

  lemma NumberOfDecimal(n: int)
    ensures Number(Decimal(n)) == Some(n)
  {
    DigitsProps(if n < 0 then -n else n);
    if n < 0 {
      assert Decimal(n)[1..] == Digits(-n);
    }
  }

  lemma DecimalInjective(m: int, n: int)
    requires Decimal(m) == Decimal(n)
    ensures m == n
  {
    NumberOfDecimal(m);
    NumberOfDecimal(n);
  }

  lemma DecimalLastIsDigit(n: int)
    ensures Decimal(n) != [] && IsDigit(Decimal(n)[|Decimal(n)| - 1])
  {
    DigitsProps(if n < 0 then -n else n);
  }

  // ---- strconv.Atoi ----

  datatype NumberError = Syntax | Range

  /** strconv.Atoi on a 64-bit platform: an optional sign, then one or more digits, within int64. */
  function Atoi(s: string): Result<int, NumberError> {
    match Number(s)
    case None => Err(Syntax)
    case Some(n) => if FitsInt64(n) then Ok(n) else Err(Range)
  }

  /** Examples: the sign may be a plus, and zeros may lead. */
  lemma NumeralsSpelledOut()
    ensures Decimal(0) == "0" && Decimal(120) == "120" && Decimal(-7) == "-7"
    ensures Atoi("+12") == Ok(12) && Atoi("-5") == Ok(-5) && Atoi("007") == Ok(7)
    ensures Atoi("") == Atoi("-") == Atoi("1a") == Err(Syntax)
  {
    assert Digits(12) == Digits(1) + ['2'];
    assert Digits(120) == Digits(12) + ['0'];
    assert "+12"[1..] == "12" && "-5"[1..] == "5" && "-"[1..] == "";
    assert "12"[..1] == "1" && "1"[..0] == "" && "5"[..0] == "" && "007"[..2] == "00" && "00"[..1] == "0";
    assert "0"[..0] == "";
    assert Value("12") == Value("1") * 10 + 2 && Value("007") == Value("00") * 10 + 7;
    assert !IsDigit("1a"[1]);
  }

  lemma AtoiDecimal(n: int)
    ensures Atoi(Decimal(n)) == if FitsInt64(n) then Ok(n) else Err(Range)
  {
    NumberOfDecimal(n);
  }
}
