/** What patterns mean, said once more without any of the matcher's own notions, and that the matcher agrees. */
module GlobMeaning {
  import opened GlobMatch

  /** The same character, or the two cases of one ASCII letter. */
  predicate SameLetter(a: char, b: char) {
    || a == b
    || ('A' <= a <= 'Z' && b as int == a as int + 32)
    || ('A' <= b <= 'Z' && a as int == b as int + 32)
  }

  /** What a wildcard may stand for: a double star for anything, a single one for anything without a slash. */
  predicate IsRun(double: bool, run: string) {
    double || '/' !in run
  }

  /** The pattern is one wildcard and `rest`; what looks like a single star is not half of a double one. */
  predicate IsStar(p: string, double: bool, rest: string) {
    if double then p == "**" + rest else p == "*" + rest && (rest == "" || rest[0] != '*')
  }

  /** The pattern stands for the first `n` characters of the text. */
  ghost predicate Stands(p: string, s: string, n: nat)
    decreases |p|
  {
    if p == "" then n == 0
    else if p[0] == '$' then s == "" && n == 0
    else if p[0] == '*' then
      var double := |p| >= 2 && p[1] == '*';
      var rest := if double then p[2..] else p[1..];
      exists w: nat :: w <= |s| && w <= n && IsRun(double, s[..w]) && Stands(rest, s[w..], n - w)
    else s != "" && n > 0 && (p[0] == '?' || SameLetter(p[0], s[0])) && Stands(p[1..], s[1..], n - 1)
  }

  /** Some lengths of the wildcards' runs make the pattern fit the first `n` characters. */
  ghost predicate FitsPrefix(p: string, s: string, n: nat) {
    exists runs :: Fits(p, s, runs, n)
  }

  // ----- Letters

  /** Letters match regardless of case; any two other characters match only if they are equal. */
  lemma LettersMatchIff(a: char, b: char)
    ensures Lower(a) == Lower(b) <==> SameLetter(a, b)
  {
  }

  // ----- Wildcards

  lemma {:induction false} SegmentIsLongest(s: string, w: nat)
    ensures w <= SegmentLength(s) <==> w <= |s| && '/' !in s[..w]
  {
    if s == "" || w == 0 {
    } else if s[0] == '/' {
      assert w <= |s| ==> s[..w][0] == '/';
    } else {
      SegmentIsLongest(s[1..], w - 1);
      if w <= |s| {
        assert s[..w] == [s[0]] + s[1..][..w - 1];
      }
    }
  }

  lemma ReachIff(p: string, double: bool, rest: string, s: string, w: nat)
    requires IsStar(p, double, rest)
    ensures p != "" && p[0] == '*' && p[StarWidth(p)..] == rest
    ensures w <= StarReach(p, s) <==> w <= |s| && IsRun(double, s[..w])
  {
    SegmentIsLongest(s, w);
  }

  /**
   * A pattern that begins with a wildcard fits a prefix exactly when the rest of the pattern fits after some run: of
   * any characters for a double star, without a slash for a single one.
   */
  lemma StarFits(p: string, double: bool, rest: string, s: string, n: nat)
    requires IsStar(p, double, rest)
    ensures FitsPrefix(p, s, n) <==>
      exists w: nat :: w <= |s| && w <= n && IsRun(double, s[..w]) && FitsPrefix(rest, s[w..], n - w)
  {
    if FitsPrefix(p, s, n) {
      var runs :| Fits(p, s, runs, n);
      ReachIff(p, double, rest, s, runs[0]);
      assert Fits(rest, s[runs[0]..], runs[1..], n - runs[0]);
      assert IsRun(double, s[..runs[0]]);
    }
    if w: nat :| w <= |s| && w <= n && IsRun(double, s[..w]) && FitsPrefix(rest, s[w..], n - w) {
      var runs :| Fits(rest, s[w..], runs, n - w);
      ReachIff(p, double, rest, s, w);
      FitsAfterStar(p, s, w, runs, n - w);
    }
  }

  /** All patterns mean what they should: the run lengths only say how. */
  lemma {:induction false} FitsIffStands(p: string, s: string, n: nat)
    ensures FitsPrefix(p, s, n) <==> Stands(p, s, n)
    decreases |p|
  {
    if p == "" || p[0] == '$' {
      assert Fits(p, s, [], n) <==> Stands(p, s, n);
    } else if p[0] == '*' {
      var double := |p| >= 2 && p[1] == '*';
      var rest := if double then p[2..] else p[1..];
      StarFits(p, double, rest, s, n);
      forall w: nat | w <= |s| && w <= n && IsRun(double, s[..w])
        ensures FitsPrefix(rest, s[w..], n - w) <==> Stands(rest, s[w..], n - w)
      {
        FitsIffStands(rest, s[w..], n - w);
      }
    } else if s != "" && n > 0 {
      LetterFits(p, s, n, n - 1);
      FitsIffStands(p[1..], s[1..], n - 1);
    }
  }

  lemma LetterFits(p: string, s: string, n: nat, before: nat)
    requires p != "" && p[0] != '*' && p[0] != '$' && s != "" && n == before + 1
    ensures FitsPrefix(p, s, n) <==> (p[0] == '?' || SameLetter(p[0], s[0])) && FitsPrefix(p[1..], s[1..], before)
  {
    LettersMatchIff(p[0], s[0]);
    if FitsPrefix(p, s, n) {
      var runs :| Fits(p, s, runs, n);
      assert Fits(p[1..], s[1..], runs, before);
    }
    if (p[0] == '?' || SameLetter(p[0], s[0])) && FitsPrefix(p[1..], s[1..], before) {
      var runs :| Fits(p[1..], s[1..], runs, before);
      assert Fits(p, s, runs, n);
    }
  }

  // ----- Answers

  /** The rest of the pattern fits nowhere after a run longer than `w`. */
  ghost predicate IsLongest(double: bool, rest: string, s: string, w: int) {
    forall v: nat :: w < v <= |s| && IsRun(double, s[..v]) ==> IsAnswer(rest, s[v..], -1)
  }

  /**
   * The answer for a pattern that begins with a wildcard: the longest run after which the rest of the pattern has an
   * answer, and that answer; none if there is no such run.
   */
  lemma StarAnswerIff(p: string, double: bool, rest: string, s: string, r: int)
    requires IsStar(p, double, rest)
    ensures IsAnswer(p, s, r) <==>
      || (r == -1 && IsLongest(double, rest, s, -1))
      || exists w: nat, m: nat ::
           w <= |s| && r == w + m && IsRun(double, s[..w]) && IsAnswer(rest, s[w..], m) && IsLongest(double, rest, s, w)
  {
    if IsAnswer(p, s, r) {
      if r == -1 {
        NoRunAnswers(p, double, rest, s);
      } else {
        var w, m := StarAnswerSplits(p, double, rest, s, r);
      }
    }
    if r == -1 && IsLongest(double, rest, s, -1) {
      NoRunFits(p, double, rest, s);
    }
    if w: nat, m: nat :|
      w <= |s| && r == w + m && IsRun(double, s[..w]) && IsAnswer(rest, s[w..], m) && IsLongest(double, rest, s, w)
    {
      StarAnswerJoins(p, double, rest, s, w, m);
    }
  }

  lemma NoRunFits(p: string, double: bool, rest: string, s: string)
    requires IsStar(p, double, rest) && IsLongest(double, rest, s, -1)
    ensures IsAnswer(p, s, -1)
  {
    forall runs, n: nat ensures !Fits(p, s, runs, n) {
      if Fits(p, s, runs, n) {
        ReachIff(p, double, rest, s, runs[0]);
        RestFits(p, s, runs, n);
      }
    }
  }

  lemma StarAnswerJoins(p: string, double: bool, rest: string, s: string, w: nat, m: nat)
    requires IsStar(p, double, rest) && w <= |s| && IsRun(double, s[..w]) && IsAnswer(rest, s[w..], m)
    requires IsLongest(double, rest, s, w)
    ensures IsAnswer(p, s, w + m)
  {
    ReachIff(p, double, rest, s, w);
    forall v | w < v <= StarReach(p, s) ensures NeverFits(rest, s[v..]) {
      ReachIff(p, double, rest, s, v);
      assert IsAnswer(rest, s[v..], -1);
    }
    StarAnswer(p, s, w, m);
  }

  lemma RunThenRest(p: string, double: bool, rest: string, s: string, v: nat, runs: seq<nat>, n: nat)
    requires IsStar(p, double, rest) && v <= |s| && IsRun(double, s[..v]) && Fits(rest, s[v..], runs, n)
    ensures Fits(p, s, [v] + runs, v + n)
  {
    ReachIff(p, double, rest, s, v);
    FitsAfterStar(p, s, v, runs, n);
  }

  lemma NoRunAnswers(p: string, double: bool, rest: string, s: string)
    requires IsStar(p, double, rest) && IsAnswer(p, s, -1)
    ensures IsLongest(double, rest, s, -1)
  {
    forall v: nat | v <= |s| && IsRun(double, s[..v]) ensures IsAnswer(rest, s[v..], -1) {
      forall runs, n: nat ensures !Fits(rest, s[v..], runs, n) {
        if Fits(rest, s[v..], runs, n) {
          RunThenRest(p, double, rest, s, v, runs, n);
        }
      }
    }
  }

  lemma FirstRunIsLongest(p: string, double: bool, rest: string, s: string, runs: seq<nat>)
    requires IsStar(p, double, rest) && runs != [] && IsGreediest(p, s, runs)
    ensures IsLongest(double, rest, s, runs[0])
  {
    forall v: nat | runs[0] < v <= |s| && IsRun(double, s[..v]) ensures IsAnswer(rest, s[v..], -1) {
      forall runs', n: nat ensures !Fits(rest, s[v..], runs', n) {
        if Fits(rest, s[v..], runs', n) {
          RunThenRest(p, double, rest, s, v, runs', n);
          assert !LexLe([v] + runs', runs);
        }
      }
    }
  }

  lemma RestIsGreediest(p: string, double: bool, rest: string, s: string, runs: seq<nat>, w: nat)
    requires IsStar(p, double, rest) && runs != [] && w == runs[0] <= |s| && IsRun(double, s[..w])
    requires IsGreediest(p, s, runs)
    ensures IsGreediest(rest, s[w..], runs[1..])
  {
    forall runs', n: nat | Fits(rest, s[w..], runs', n) ensures LexLe(runs', runs[1..]) {
      RunThenRest(p, double, rest, s, w, runs', n);
      assert ([w] + runs')[1..] == runs';
      assert LexLe([w] + runs', runs);
    }
  }

  lemma StarAnswerSplits(p: string, double: bool, rest: string, s: string, r: nat) returns (w: nat, m: nat)
    requires IsStar(p, double, rest) && IsAnswer(p, s, r)
    ensures w <= |s| && r == w + m && IsRun(double, s[..w]) && IsAnswer(rest, s[w..], m)
    ensures IsLongest(double, rest, s, w)
  {
    var runs :| Fits(p, s, runs, r) && IsGreediest(p, s, runs);
    w, m := runs[0], r - runs[0];
    ReachIff(p, double, rest, s, w);
    FirstRunIsLongest(p, double, rest, s, runs);
    RestIsGreediest(p, double, rest, s, runs, w);
    assert Fits(rest, s[w..], runs[1..], m);
  }

  /** The answer for a pattern that begins with a character: the rest's answer for the rest of the text, and one more. */
  lemma LetterAnswerIff(p: string, s: string, r: int)
    requires p != "" && p[0] != '*' && p[0] != '$'
    ensures IsAnswer(p, s, r) <==>
      if s != "" && (p[0] == '?' || SameLetter(p[0], s[0])) then
        (r == -1 && IsAnswer(p[1..], s[1..], -1)) || (r >= 1 && IsAnswer(p[1..], s[1..], r - 1))
      else r == -1
  {
    if s != "" && (p[0] == '?' || SameLetter(p[0], s[0])) {
      LettersMatchIff(p[0], s[0]);
      assert s[0..] == s && p[0..] == p;
      SameFitsStep(p, s, 0, 0);
      OneFurther(p, s, r);
    } else {
      if s != "" {
        LettersMatchIff(p[0], s[0]);
      }
      MismatchAnswer(p, s);
      if IsAnswer(p, s, r) {
        AnswerIsUnique(p, s, r, -1);
      }
    }
  }

  lemma LowerCaseLettersDiffer(a: char, b: char)
    requires 'a' <= a <= 'z' && 'a' <= b <= 'z' && a != b
    ensures IsAnswer([a], [b], -1) && IsAnswer([a], [a], 1)
  {
    MismatchAnswer([a], [b]);
    assert Fits([a][1..], [a][1..], [], 0);
    LetterAnswerIff([a], [a], 1);
  }

  lemma OneFurther(p: string, s: string, r: int)
    requires p != "" && s != "" && SameFits(p, s, 1, 1)
    ensures IsAnswer(p, s, r) <==>
      (r == -1 && IsAnswer(p[1..], s[1..], -1)) || (r >= 1 && IsAnswer(p[1..], s[1..], r - 1))
  {
    if (r == -1 && IsAnswer(p[1..], s[1..], -1)) || (r >= 1 && IsAnswer(p[1..], s[1..], r - 1)) {
      AnswerFromRest(p, s, 1, 1, if r == -1 then -1 else r - 1);
    }
    if IsAnswer(p, s, r) {
      forall runs, n: nat ensures Fits(p[1..], s[1..], runs, n) <==> Fits(p, s, runs, n + 1) {
      }
    }
  }

  /**
   * The answer is positive exactly when some alternative stands for a nonempty prefix of the text, and -1 exactly when
   * none does and the last one does not stand for the empty prefix either.
   */
  lemma AnswerIffStands(alts: seq<string>, s: string, r: int)
    requires alts != [] && IsOverallAnswer(alts, s, r)
    ensures r > 0 <==> exists k :: 0 <= k < |alts| && StandsNonempty(alts[k], s)
    ensures r == -1 <==> NeverStands(alts[|alts| - 1], s) && forall k :: 0 <= k < |alts| ==> !StandsNonempty(alts[k], s)
  {
    OverallAnswer(alts, s, r);
    forall k | 0 <= k < |alts| ensures FitsNonempty(alts[k], s) <==> StandsNonempty(alts[k], s) {
      NonemptyIff(alts[k], s);
    }
    NeverIff(alts[|alts| - 1], s);
    if r > 0 {
      var k :| 0 <= k < |alts| && FitsNonempty(alts[k], s);
      assert StandsNonempty(alts[k], s);
    } else {
      forall k | 0 <= k < |alts| ensures !StandsNonempty(alts[k], s) {
        assert !FitsNonempty(alts[k], s);
      }
    }
  }

  ghost predicate StandsNonempty(p: string, s: string) {
    exists n: nat :: n > 0 && Stands(p, s, n)
  }

  ghost predicate NeverStands(p: string, s: string) {
    forall n: nat :: !Stands(p, s, n)
  }

  lemma NeverIff(p: string, s: string)
    ensures NeverFits(p, s) <==> NeverStands(p, s)
  {
    forall n: nat ensures FitsPrefix(p, s, n) <==> Stands(p, s, n) {
      FitsIffStands(p, s, n);
    }
    if !NeverFits(p, s) {
      var runs, n: nat :| Fits(p, s, runs, n);
      assert FitsPrefix(p, s, n);
    }
  }

  lemma NonemptyIff(p: string, s: string)
    ensures FitsNonempty(p, s) <==> StandsNonempty(p, s)
  {
    if FitsNonempty(p, s) {
      var runs, n: nat :| n > 0 && Fits(p, s, runs, n);
      assert FitsPrefix(p, s, n);
      FitsIffStands(p, s, n);
    }
    if StandsNonempty(p, s) {
      var n: nat :| n > 0 && Stands(p, s, n);
      FitsIffStands(p, s, n);
    }
  }

  // ----- Alternatives

  function JoinedWithBars(alts: seq<string>): string {
    if alts == [] then "" else if |alts| == 1 then alts[0] else alts[0] + "|" + JoinedWithBars(alts[1..])
  }

  /** The alternatives are what stands between the bars. */
  lemma {:induction false} AlternativesJoin(p: string)
    ensures JoinedWithBars(Alternatives(p)) == p
    ensures forall k :: 0 <= k < |Alternatives(p)| ==> '|' !in Alternatives(p)[k]
    decreases |p|
  {
    var k := FindBar(p);
    if k >= 0 {
      AlternativesJoin(p[k + 1..]);
      assert p == p[..k] + "|" + p[k + 1..];
      assert Alternatives(p)[1..] == Alternatives(p[k + 1..]);
    }
  }

  // ----- Case

  predicate SameText(a: string, b: string) {
    |a| == |b| && forall i :: 0 <= i < |a| ==> SameLetter(a[i], b[i])
  }

  lemma {:induction false} SameSegment(a: string, b: string)
    requires SameText(a, b)
    ensures SegmentLength(a) == SegmentLength(b)
  {
    if a != "" {
      SameSegment(a[1..], b[1..]);
      assert SameLetter(a[0], b[0]);
    }
  }

  lemma SameStar(p: string, q: string, s: string, t: string)
    requires SameText(p, q) && SameText(s, t) && p != "" && p[0] == '*'
    ensures q[0] == '*' && StarWidth(p) == StarWidth(q) && StarReach(p, s) == StarReach(q, t)
  {
    SameSegment(s, t);
    assert SameLetter(p[0], q[0]);
    assert |p| > 1 ==> SameLetter(p[1], q[1]);
  }

  lemma {:induction false} CaseKeepsFits(p: string, q: string, s: string, t: string, runs: seq<nat>, n: nat)
    requires SameText(p, q) && SameText(s, t) && Fits(p, s, runs, n)
    ensures Fits(q, t, runs, n)
    decreases |p|
  {
    if p == "" {
    } else {
      assert SameLetter(p[0], q[0]);
      if p[0] == '*' {
        SameStar(p, q, s, t);
        CaseKeepsFits(p[StarWidth(p)..], q[StarWidth(q)..], s[runs[0]..], t[runs[0]..], runs[1..], n - runs[0]);
      } else if p[0] != '$' {
        assert SameLetter(s[0], t[0]);
        CaseKeepsFits(p[1..], q[1..], s[1..], t[1..], runs, n - 1);
      }
    }
  }

  lemma SameTextSymmetric(a: string, b: string)
    requires SameText(a, b)
    ensures SameText(b, a)
  {
    forall i | 0 <= i < |b| ensures SameLetter(b[i], a[i]) {
      assert SameLetter(a[i], b[i]);
    }
  }

  lemma CaseKeepsAnswer(p: string, q: string, s: string, t: string, r: int)
    requires SameText(p, q) && SameText(s, t) && IsAnswer(p, s, r)
    ensures IsAnswer(q, t, r)
  {
    SameTextSymmetric(p, q);
    SameTextSymmetric(s, t);
    forall runs, n: nat ensures Fits(p, s, runs, n) <==> Fits(q, t, runs, n) {
      if Fits(p, s, runs, n) {
        CaseKeepsFits(p, q, s, t, runs, n);
      }
      if Fits(q, t, runs, n) {
        CaseKeepsFits(q, p, t, s, runs, n);
      }
    }
  }

  ghost predicate SameTexts(a: seq<string>, b: seq<string>) {
    |a| == |b| && forall k :: 0 <= k < |a| ==> SameText(a[k], b[k])
  }

  lemma {:induction false} SameBar(p: string, q: string)
    requires SameText(p, q)
    ensures FindBar(p) == FindBar(q)
  {
    if p != "" {
      assert SameLetter(p[0], q[0]);
      SameBar(p[1..], q[1..]);
    }
  }

  lemma SamePrefix(p: string, q: string, k: nat)
    requires SameText(p, q) && k <= |p|
    ensures SameText(p[..k], q[..k])
  {
  }

  lemma SameSuffix(p: string, q: string, k: nat)
    requires SameText(p, q) && k <= |p|
    ensures SameText(p[k..], q[k..])
  {
    forall i | 0 <= i < |p| - k ensures SameLetter(p[k..][i], q[k..][i]) {
      assert SameLetter(p[k + i], q[k + i]);
    }
  }

  lemma SameFirst(a: string, b: string, rest: seq<string>, rest': seq<string>)
    requires SameText(a, b) && SameTexts(rest, rest')
    ensures SameTexts([a] + rest, [b] + rest')
  {
  }

  lemma SplitAtBar(p: string) returns (first: string, rest: string)
    requires FindBar(p) >= 0
    ensures first == p[..FindBar(p)] && rest == p[FindBar(p) + 1..]
    ensures Alternatives(p) == [first] + Alternatives(rest)
  {
    first, rest := p[..FindBar(p)], p[FindBar(p) + 1..];
  }

  lemma OneAlternative(p: string, q: string)
    requires SameText(p, q) && FindBar(p) == -1
    ensures SameTexts(Alternatives(p), Alternatives(q))
  {
    SameBar(p, q);
  }

  lemma {:induction false} SameAlternatives(p: string, q: string)
    requires SameText(p, q)
    ensures SameTexts(Alternatives(p), Alternatives(q))
    decreases |p|
  {
    if FindBar(p) >= 0 {
      SameBar(p, q);
      var first, rest := SplitAtBar(p);
      var first', rest' := SplitAtBar(q);
      SamePrefix(p, q, FindBar(p));
      SameSuffix(p, q, FindBar(p) + 1);
      SameAlternatives(rest, rest');
      SameFirst(first, first', Alternatives(rest), Alternatives(rest'));
    } else {
      OneAlternative(p, q);
    }
  }

  lemma {:induction false} CaseKeepsOverall(a: seq<string>, b: seq<string>, s: string, t: string, r: int)
    requires a != [] && SameTexts(a, b) && SameText(s, t) && IsOverallAnswer(a, s, r)
    ensures IsOverallAnswer(b, t, r)
  {
    if |a| == 1 {
      CaseKeepsAnswer(a[0], b[0], s, t, r);
    } else {
      var r0 :| IsAnswer(a[0], s, r0) && (if r0 > 0 then r == r0 else IsOverallAnswer(a[1..], s, r));
      CaseKeepsAnswer(a[0], b[0], s, t, r0);
      if r0 <= 0 {
        CaseKeepsOverall(a[1..], b[1..], s, t, r);
      }
    }
  }

  /** Changing the case of letters, in the pattern or in the text, changes no answer. */
  lemma CaseIsIgnored(p: string, q: string, s: string, t: string, r: int)
    requires SameText(p, q) && SameText(s, t)
    ensures IsOverallAnswer(Alternatives(p), s, r) <==> IsOverallAnswer(Alternatives(q), t, r)
  {
    SameTextSymmetric(p, q);
    SameTextSymmetric(s, t);
    SameAlternatives(p, q);
    SameAlternatives(q, p);
    if IsOverallAnswer(Alternatives(p), s, r) {
      CaseKeepsOverall(Alternatives(p), Alternatives(q), s, t, r);
    }
    if IsOverallAnswer(Alternatives(q), t, r) {
      CaseKeepsOverall(Alternatives(q), Alternatives(p), t, s, r);
    }
  }

  // ----- An example

  /** The first alternative of the default CGI pattern takes a script in a directory. */
  lemma CgiExample()
    ensures IsAnswer("**.cgi$", "/cgi-bin/x.cgi", 14)
  {
    var s := "/cgi-bin/x.cgi";
    assert s[10..] == ".cgi";
    assert Fits("$", "", [], 0);
    CgiAnswer();
    forall v: nat | 10 < v <= |s| ensures IsAnswer(".cgi$", s[v..], -1) {
      MismatchAnswer(".cgi$", s[v..]);
    }
    StarAnswerIff("**.cgi$", true, ".cgi$", s, 14);
  }

  lemma CgiAnswer()
    ensures IsAnswer(".cgi$", ".cgi", 4)
  {
    EndAnswer("$", "");
    LetterAnswerIff("i$", "i", 1);
    LetterAnswerIff("gi$", "gi", 2);
    LetterAnswerIff("cgi$", "cgi", 3);
    LetterAnswerIff(".cgi$", ".cgi", 4);
  }
}
