/** The speaker/timestamp header pattern of the transcript cleaner,
    `^Speaker\s+\d+\s+[\d:]{5,}\s+-\s+[\d:]{5,}\s*$`, written as a list of
    pattern items with two readings: `Matches`, the backtracking reading a
    regular-expression engine gives it, and `Recognise`, a greedy left-to-right
    recogniser. The two agree on every pattern whose repetitions are each
    followed by something they cannot consume, which the header pattern is. */
module HeaderPattern {

  /** Python's `str.isspace`, which is also the set `\s` matches in a `str`
      pattern: the code points 0x09-0x0D, 0x1C-0x20, 0x85, 0xA0, 0x1680,
      0x2000-0x200A, 0x2028, 0x2029, 0x202F, 0x205F and 0x3000. */
  predicate IsSpace(c: char) {
    var n := c as int;
    (0x09 <= n <= 0x0D) || (0x1C <= n <= 0x20) || n == 0x85 || n == 0xA0
    || n == 0x1680 || (0x2000 <= n <= 0x200A) || n == 0x2028 || n == 0x2029
    || n == 0x202F || n == 0x205F || n == 0x3000
  }

  /** `\d`, restricted to the ASCII digits. */
  predicate IsDigit(c: char) {
    '0' <= c <= '9'
  }

  /** The three character classes the pattern uses: `\s`, `\d` and `[\d:]`. */
  datatype CharClass = Space | Digit | DigitOrColon

  predicate InClass(k: CharClass, c: char) {
    match k
    case Space => IsSpace(c)
    case Digit => IsDigit(c)
    case DigitOrColon => IsDigit(c) || c == ':'
  }

  predicate AllIn(k: CharClass, s: string) {
    forall i :: 0 <= i < |s| ==> InClass(k, s[i])
  }

  /** A pattern item: a literal, or a class repeated at least `min` times
      (`+` is `min == 1`, `*` is `min == 0`, `{5,}` is `min == 5`). */
  datatype Item = Lit(text: string) | Rep(cls: CharClass, min: nat)

  /** `Speaker\s+\d+\s+[\d:]{5,}\s+-\s+[\d:]{5,}\s*`, anchored at both ends.
      Python's `$` also matches before one final newline; the trailing `\s*`
      absorbs such a newline anyway, so plain end-of-string is the same here.
      The list is built from its tails, which the proofs below walk through. */
  const HeaderItems: seq<Item> := [Lit("Speaker")] + ([Rep(Space, 1)] + NumberedItems)

  /** `\d+\s+[\d:]{5,}` and the time range after it. */
  const NumberedItems: seq<Item> := [Rep(Digit, 1)] + ([Rep(Space, 1)] + ([Rep(DigitOrColon, 5)] + TimeRangeItems))

  /** `\s+-\s+[\d:]{5,}\s*`. */
  const TimeRangeItems: seq<Item> := [Rep(Space, 1)] + ([Lit("-")] + ([Rep(Space, 1)] + ([Rep(DigitOrColon, 5)] + [Rep(Space, 0)])))

  /** The regular-expression reading: `s` splits into consecutive pieces, one
      per item, each matched by its item, with nothing left over. A repetition
      may take any admissible number of characters (backtracking). */
  ghost predicate Matches(ps: seq<Item>, s: string)
    decreases |ps|
  {
    if ps == [] then s == []
    else match ps[0]
      case Lit(w) => |w| <= |s| && s[..|w|] == w && Matches(ps[1..], s[|w|..])
      case Rep(k, m) => exists n :: m <= n <= |s| && AllIn(k, s[..n]) && Matches(ps[1..], s[n..])
  }

  /** The length of the longest prefix of `s` inside class `k`. */
  function Span(k: CharClass, s: string): (n: nat)
    ensures n <= |s|
    ensures AllIn(k, s[..n])
    ensures n < |s| ==> !InClass(k, s[n])
    decreases |s|
  {
    if s != [] && InClass(k, s[0]) then
      var n := 1 + Span(k, s[1..]);
      assert forall i :: 1 <= i < n ==> s[..n][i] == s[1..][..n - 1][i - 1];
      n
    else 0
  }

  /** The greedy recogniser: every repetition takes as many characters as it can. */
  predicate Recognise(ps: seq<Item>, s: string)
    decreases |ps|
  {
    if ps == [] then s == []
    else match ps[0]
      case Lit(w) => |w| <= |s| && s[..|w|] == w && Recognise(ps[1..], s[|w|..])
      case Rep(k, m) => var n := Span(k, s); m <= n && Recognise(ps[1..], s[n..])
  }

  /** No character belongs to both classes. */
  predicate Disjoint(a: CharClass, b: CharClass) {
    a != b && (a == Space || b == Space)
  }

  /** Whatever the items `rest` match is empty or starts outside class `k`. */
  predicate Stops(k: CharClass, rest: seq<Item>) {
    rest == [] ||
    match rest[0]
    case Lit(w) => w != [] && !InClass(k, w[0])
    case Rep(k2, m2) => Disjoint(k, k2) && (m2 >= 1 || |rest| == 1)
  }

  /** Each repetition is followed by items that stop it. */
  predicate Separated(ps: seq<Item>) {
    forall i :: 0 <= i < |ps| && ps[i].Rep? ==> Stops(ps[i].cls, ps[i + 1..])
  }

  /** The recogniser used on transcript lines. */
  predicate IsHeader(t: string) {
    Recognise(HeaderItems, t)
  }

  lemma DisjointClasses(a: CharClass, b: CharClass, c: char)
    requires Disjoint(a, b) && InClass(b, c)
    ensures !InClass(a, c)
  {
  }

  /** A string matched by items that stop `k` is empty or starts outside `k`. */
  lemma StopsFirst(k: CharClass, ps: seq<Item>, u: string)
    requires Stops(k, ps) && Matches(ps, u)
    ensures u == [] || !InClass(k, u[0])
  {
    if ps != [] {
      match ps[0]
      case Lit(w) =>
        assert u[..|w|][0] == u[0];
      case Rep(k2, m2) =>
        var n :| m2 <= n <= |u| && AllIn(k2, u[..n]) && Matches(ps[1..], u[n..]);
        assert m2 == 0 ==> ps[1..] == [];
        if u != [] {
          assert n > 0;
          assert u[..n][0] == u[0];
          DisjointClasses(k, k2, u[0]);
        }
    }
  }

  /** A prefix inside `k` that cannot be extended is the span. */
  lemma {:induction false} SpanUnique(k: CharClass, s: string, n: nat)
    requires n <= |s| && AllIn(k, s[..n])
    requires n < |s| ==> !InClass(k, s[n])
    ensures Span(k, s) == n
    decreases |s|
  {
    if n > 0 {
      assert s[..n][0] == s[0];
      assert s[1..][..n - 1] == s[..n][1..];
      SpanUnique(k, s[1..], n - 1);
    }
  }

  lemma SeparatedTail(ps: seq<Item>)
    requires ps != [] && Separated(ps)
    ensures Separated(ps[1..])
  {
    forall i | 0 <= i < |ps[1..]| && ps[1..][i].Rep?
      ensures Stops(ps[1..][i].cls, ps[1..][i + 1..])
    {
      assert ps[1..][i] == ps[i + 1] && ps[1..][i + 1..] == ps[i + 2..];
    }
  }

  /** On a separated pattern the greedy recogniser accepts exactly the strings
      the backtracking reading matches. */
  lemma {:induction false} RecogniseIsMatch(ps: seq<Item>, s: string)
    requires Separated(ps)
    ensures Recognise(ps, s) <==> Matches(ps, s)
    decreases |ps|
  {
    if ps != [] {
      SeparatedTail(ps);
      match ps[0]
      case Lit(w) =>
        if |w| <= |s| {
          RecogniseIsMatch(ps[1..], s[|w|..]);
        }
      case Rep(k, m) =>
        var n := Span(k, s);
        RecogniseIsMatch(ps[1..], s[n..]);
        if Matches(ps, s) {
          var n' :| m <= n' <= |s| && AllIn(k, s[..n']) && Matches(ps[1..], s[n'..]);
          assert Stops(k, ps[1..]);
          StopsFirst(k, ps[1..], s[n'..]);
          if n' < |s| {
            assert s[n'..][0] == s[n'];
          }
          SpanUnique(k, s, n');
        }
    }
  }

  lemma HeaderItemsSeparated()
    ensures Separated(HeaderItems)
  {
    forall i | 0 <= i < |HeaderItems| && HeaderItems[i].Rep?
      ensures Stops(HeaderItems[i].cls, HeaderItems[i + 1..])
    {
      assert i in {1, 2, 3, 4, 5, 7, 8, 9};
    }
  }

  /** The hand-written recogniser decides exactly the regular expression. */
  lemma HeaderIsRegexMatch(t: string)
    ensures IsHeader(t) <==> Matches(HeaderItems, t)
  {
    HeaderItemsSeparated();
    RecogniseIsMatch(HeaderItems, t);
  }

  /** A header starts with the literal `Speaker`. */
  lemma HeaderStartsWithSpeaker(t: string)
    ensures IsHeader(t) ==> |t| >= 7 && t[..7] == "Speaker"
  {
    assert HeaderItems[0] == Lit("Speaker");
  }

  /** One literal step of the recogniser. */
  lemma RecogniseLit(w: string, rest: seq<Item>, b: string)
    ensures Recognise([Lit(w)] + rest, w + b) <==> Recognise(rest, b)
  {
    assert ([Lit(w)] + rest)[1..] == rest;
    assert (w + b)[..|w|] == w && (w + b)[|w|..] == b;
  }

  /** One repetition step: a run `a` inside `k`, stopped by what follows it. */
  lemma RecogniseRep(k: CharClass, m: nat, rest: seq<Item>, a: string, b: string)
    requires AllIn(k, a) && (b == [] || !InClass(k, b[0]))
    ensures Recognise([Rep(k, m)] + rest, a + b) <==> m <= |a| && Recognise(rest, b)
  {
    assert ([Rep(k, m)] + rest)[1..] == rest;
    assert (a + b)[..|a|] == a && (a + b)[|a|..] == b;
    SpanUnique(k, a + b, |a|);
  }

  /** A dash between spaces, a second time token and trailing spaces. */
  lemma {:induction false} TimeRangeTail(s3: string, s4: string, t2: string, s5: string)
    requires |s3| >= 1 && AllIn(Space, s3) && |s4| >= 1 && AllIn(Space, s4)
    requires |t2| >= 5 && AllIn(DigitOrColon, t2) && AllIn(Space, s5)
    ensures Recognise(TimeRangeItems, s3 + ("-" + (s4 + (t2 + s5))))
  {
    var p9 := [Rep(Space, 0)];
    var p8 := [Rep(DigitOrColon, 5)] + p9;
    var p7 := [Rep(Space, 1)] + p8;
    var p6 := [Lit("-")] + p7;
    assert [Rep(Space, 1)] + p6 == TimeRangeItems;
    assert Recognise(p9, s5) by {
      assert s5 + "" == s5;
      RecogniseRep(Space, 0, [], s5, "");
    }
    var r8 := t2 + s5;
    assert Recognise(p8, r8) by { RecogniseRep(DigitOrColon, 5, p9, t2, s5); }
    var r7 := s4 + r8;
    assert Recognise(p7, r7) by { RecogniseRep(Space, 1, p8, s4, r8); }
    assert Recognise(p6, "-" + r7) by { RecogniseLit("-", p7, r7); }
    RecogniseRep(Space, 1, p6, s3, "-" + r7);
  }

  /** The number, the first time token and the time range after it. */
  lemma {:induction false} NumberedTail(d: string, s2: string, t1: string, r5: string)
    requires |d| >= 1 && AllIn(Digit, d) && |s2| >= 1 && AllIn(Space, s2)
    requires |t1| >= 5 && AllIn(DigitOrColon, t1)
    requires r5 != [] && IsSpace(r5[0]) && Recognise(TimeRangeItems, r5)
    ensures Recognise(NumberedItems, d + (s2 + (t1 + r5)))
  {
    var p4 := [Rep(DigitOrColon, 5)] + TimeRangeItems;
    var p3 := [Rep(Space, 1)] + p4;
    assert [Rep(Digit, 1)] + p3 == NumberedItems;
    var r4 := t1 + r5;
    assert Recognise(p4, r4) by { RecogniseRep(DigitOrColon, 5, TimeRangeItems, t1, r5); }
    var r3 := s2 + r4;
    assert Recognise(p3, r3) by { RecogniseRep(Space, 1, p4, s2, r4); }
    RecogniseRep(Digit, 1, p3, d, r3);
  }

  /** Every line made of `Speaker`, spaces, a number, spaces, a time token
      of at least five digits and colons, spaces, `-`, spaces, another such
      token and optional trailing spaces is a header. */
  lemma {:induction false} HeaderOfParts(s1: string, d: string, s2: string, t1: string,
                                         s3: string, s4: string, t2: string, s5: string)
    requires |s1| >= 1 && AllIn(Space, s1) && |d| >= 1 && AllIn(Digit, d)
    requires |s2| >= 1 && AllIn(Space, s2) && |t1| >= 5 && AllIn(DigitOrColon, t1)
    requires |s3| >= 1 && AllIn(Space, s3) && |s4| >= 1 && AllIn(Space, s4)
    requires |t2| >= 5 && AllIn(DigitOrColon, t2) && AllIn(Space, s5)
    ensures IsHeader("Speaker" + (s1 + (d + (s2 + (t1 + (s3 + ("-" + (s4 + (t2 + s5)))))))))
  {
    var p1 := [Rep(Space, 1)] + NumberedItems;
    assert [Lit("Speaker")] + p1 == HeaderItems;
    var r5 := s3 + ("-" + (s4 + (t2 + s5)));
    var r2 := d + (s2 + (t1 + r5));
    assert Recognise(NumberedItems, r2) by {
      TimeRangeTail(s3, s4, t2, s5);
      NumberedTail(d, s2, t1, r5);
    }
    assert Recognise(p1, s1 + r2) by { RecogniseRep(Space, 1, NumberedItems, s1, r2); }
    RecogniseLit("Speaker", p1, s1 + r2);
  }

  /** The example in the source's comment is a header. */
  lemma SampleHeaderMatches()
    ensures IsHeader("Speaker 1 0:00:01 - 0:00:05")
  {
    assert "Speaker" + (" " + ("1" + (" " + ("0:00:01" + (" " + ("-" + (" " + ("0:00:05" + ""))))))))
        == "Speaker 1 0:00:01 - 0:00:05";
    HeaderOfParts(" ", "1", " ", "0:00:01", " ", " ", "0:00:05", "");
  }

  /** A first time token of fewer than five digit/colon characters rules a
      header out, whatever follows it. */
  lemma {:induction false} ShortFirstTimeNotHeader(s1: string, d: string, s2: string, t1: string, rest: string)
    requires |s1| >= 1 && AllIn(Space, s1) && |d| >= 1 && AllIn(Digit, d)
    requires |s2| >= 1 && AllIn(Space, s2)
    requires 1 <= |t1| < 5 && AllIn(DigitOrColon, t1)
    requires rest == [] || !InClass(DigitOrColon, rest[0])
    ensures !IsHeader("Speaker" + (s1 + (d + (s2 + (t1 + rest)))))
  {
    var p4 := TimeRangeItems;
    var p3 := [Rep(DigitOrColon, 5)] + p4;
    var p2 := [Rep(Space, 1)] + p3;
    var p1 := [Rep(Digit, 1)] + p2;
    var p0 := [Rep(Space, 1)] + p1;
    assert p1 == NumberedItems;
    assert [Lit("Speaker")] + p0 == HeaderItems;
    RecogniseRep(DigitOrColon, 5, p4, t1, rest);
    var r3 := t1 + rest;
    RecogniseRep(Space, 1, p3, s2, r3);
    var r2 := s2 + r3;
    RecogniseRep(Digit, 1, p2, d, r2);
    var r1 := d + r2;
    RecogniseRep(Space, 1, p1, s1, r1);
    RecogniseLit("Speaker", p0, s1 + r1);
  }

  /** `Speaker 1 0:01 - 0:05` is not a header: its time tokens are too short. */
  lemma ShortTimesDoNotMatch()
    ensures !IsHeader("Speaker 1 0:01 - 0:05")
  {
    assert "Speaker" + (" " + ("1" + (" " + ("0:01" + " - 0:05")))) == "Speaker 1 0:01 - 0:05";
    ShortFirstTimeNotHeader(" ", "1", " ", "0:01", " - 0:05");
  }
}
