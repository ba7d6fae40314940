/** The case-insensitive glob matcher that selects URI patterns, refined to a relation on patterns and texts. */
module GlobMatch {

  function Lower(c: char): char {
    if 'A' <= c <= 'Z' then c - 'A' + 'a' else c
  }

  /** How many leading characters of `s` are not a slash. */
  function SegmentLength(s: string): (n: nat)
    ensures n <= |s|
  {
    if s == [] || s[0] == '/' then 0 else 1 + SegmentLength(s[1..])
  }

  /** A double star is read as one wildcard. */
  function StarWidth(p: string): (w: nat)
    requires p != [] && p[0] == '*'
    ensures 1 <= w <= |p|
  {
    if |p| > 1 && p[1] == '*' then 2 else 1
  }

  /** The longest run of `s` that the wildcard at the head of `p` may stand for. */
  function StarReach(p: string, s: string): (n: nat)
    requires p != [] && p[0] == '*'
    ensures n <= |s|
  {
    if StarWidth(p) == 2 then |s| else SegmentLength(s)
  }

  /**
   * The pattern `p` stands for the first `n` characters of `s` when its wildcards stand, from left to right, for runs
   * of the lengths listed in `runs`. A `?` is any one character, a `*` any run without a slash, a `**` any run,
   * and a `$` the end of the text, whatever follows it in the pattern.
   */
  ghost predicate Fits(p: string, s: string, runs: seq<nat>, n: nat)
    decreases |p|
  {
    if p == [] then runs == [] && n == 0
    else if p[0] == '$' then s == [] && runs == [] && n == 0
    else if p[0] == '*' then
      runs != [] && runs[0] <= StarReach(p, s) && runs[0] <= n &&
      Fits(p[StarWidth(p)..], s[runs[0]..], runs[1..], n - runs[0])
    else
      s != [] && n > 0 && (p[0] == '?' || Lower(p[0]) == Lower(s[0])) && Fits(p[1..], s[1..], runs, n - 1)
  }

  /** Dictionary order on the lengths of the runs. */
  ghost predicate LexLe(a: seq<nat>, b: seq<nat>) {
    a == [] || (b != [] && (a[0] < b[0] || (a[0] == b[0] && LexLe(a[1..], b[1..]))))
  }

  /** `runs` makes the pattern fit, each wildcard in turn taking as much as the rest of the pattern allows. */
  ghost predicate IsGreediest(p: string, s: string, runs: seq<nat>) {
    forall runs', n': nat :: Fits(p, s, runs', n') ==> LexLe(runs', runs)
  }

  ghost predicate NeverFits(p: string, s: string) {
    forall runs, n: nat :: !Fits(p, s, runs, n)
  }

  /** The answer for one alternative: the length of its greediest fit, or -1 when it has none. */
  ghost predicate IsAnswer(p: string, s: string, r: int) {
    || (r == -1 && NeverFits(p, s))
    || (r >= 0 && exists runs :: Fits(p, s, runs, r) && IsGreediest(p, s, runs))
  }

  function Alternatives(p: string): (alts: seq<string>)
    ensures alts != []
    decreases |p|
  {
    match FindBar(p)
    case -1 => [p]
    case k => [p[..k]] + Alternatives(p[k + 1..])
  }

  /** The first bar of the pattern, or -1. */
  function FindBar(p: string): (k: int)
    ensures -1 <= k < |p|
    ensures k == -1 ==> '|' !in p
    ensures k >= 0 ==> p[k] == '|' && '|' !in p[..k]
  {
    if p == [] then -1
    else if p[0] == '|' then 0
    else var k := FindBar(p[1..]); if k == -1 then -1 else k + 1
  }

  /** The answer for several alternatives: the first positive one, or else the answer of the last one. */
  ghost predicate IsOverallAnswer(alts: seq<string>, s: string, r: int)
    requires alts != []
  {
    if |alts| == 1 then IsAnswer(alts[0], s, r)
    else exists r0 :: IsAnswer(alts[0], s, r0) && (if r0 > 0 then r == r0 else IsOverallAnswer(alts[1..], s, r))
  }

  /** C strings: no NUL inside. */
  predicate IsCString(s: string) {
    '\0' !in s
  }

  lemma FitsAfterStar(p: string, s: string, w: nat, runs: seq<nat>, n: nat)
    requires p != [] && p[0] == '*' && w <= StarReach(p, s)
    requires Fits(p[StarWidth(p)..], s[w..], runs, n)
    ensures Fits(p, s, [w] + runs, w + n)
  {
    assert ([w] + runs)[1..] == runs;
  }

  /** With a nonempty rest, the greediest fit takes the longest run that lets the rest fit, and then the rest's greediest. */
  lemma GreediestAfterStar(p: string, s: string, w: nat, runs: seq<nat>)
    requires p != [] && p[0] == '*' && w <= StarReach(p, s)
    requires IsGreediest(p[StarWidth(p)..], s[w..], runs)
    requires forall v :: w < v <= StarReach(p, s) ==> NeverFits(p[StarWidth(p)..], s[v..])
    ensures IsGreediest(p, s, [w] + runs)
  {
    forall runs', n': nat | Fits(p, s, runs', n') ensures LexLe(runs', [w] + runs) {
      assert ([w] + runs)[1..] == runs;
      assert Fits(p[StarWidth(p)..], s[runs'[0]..], runs'[1..], n' - runs'[0]);
      assert runs'[0] <= w;
      if runs'[0] == w {
        assert LexLe(runs'[1..], runs);
      }
    }
  }

  /** The head of the pattern is not a wildcard: the pattern fits exactly when it can be moved on with the text. */
  predicate HeadMatches(p: string, s: string)
    requires p != []
  {
    s != [] && (p[0] == '?' || Lower(p[0]) == Lower(s[0]))
  }

  /** The part of the pattern and of the text already consumed does not affect the fits of the rest. */
  ghost predicate SameFits(p: string, s: string, i: nat, j: nat)
    requires i <= |p| && j <= |s|
  {
    forall runs, n: nat :: Fits(p, s, runs, n) <==> n >= j && Fits(p[i..], s[j..], runs, n - j)
  }

  lemma SameFitsStep(p: string, s: string, i: nat, j: nat)
    requires i < |p| && j < |s| && SameFits(p, s, i, j)
    requires p[i] != '$' && p[i] != '*' && HeadMatches(p[i..], s[j..])
    ensures SameFits(p, s, i + 1, j + 1)
  {
    assert p[i..][1..] == p[i + 1..] && s[j..][1..] == s[j + 1..];
    forall runs, n: nat ensures Fits(p, s, runs, n) <==> n >= j + 1 && Fits(p[i + 1..], s[j + 1..], runs, n - (j + 1)) {
      if n >= j {
        assert Fits(p[i..], s[j..], runs, n - j) <==> n - j > 0 && Fits(p[i + 1..], s[j + 1..], runs, n - j - 1);
      }
    }
  }

  lemma AnswerFromRest(p: string, s: string, i: nat, j: nat, r: int)
    requires i <= |p| && j <= |s| && SameFits(p, s, i, j) && IsAnswer(p[i..], s[j..], r)
    ensures IsAnswer(p, s, if r == -1 then -1 else j + r)
  {
    if r == -1 {
      forall runs, n: nat ensures !Fits(p, s, runs, n) {
        if n >= j { assert !Fits(p[i..], s[j..], runs, n - j); }
      }
    } else {
      var runs :| Fits(p[i..], s[j..], runs, r) && IsGreediest(p[i..], s[j..], runs);
      assert Fits(p, s, runs, j + r);
    }
  }

  /** Compares the text with one pattern, trying each wildcard's longest run first. */
  method MatchPrefix(pattern: string, str: string) returns (r: int)
    requires IsCString(pattern) && IsCString(str)
    ensures IsOverallAnswer(Alternatives(pattern), str, r)
    decreases |pattern|, 1
  {
    var bar := FindBar(pattern);
    if bar >= 0 {
      var left := MatchPrefix(pattern[..bar], str);
      NoBarAlternatives(pattern[..bar]);
      var alts := Alternatives(pattern);
      assert alts[1..] == Alternatives(pattern[bar + 1..]);
      if left > 0 {
        return left;
      }
      r := MatchPrefix(pattern[bar + 1..], str);
      return r;
    }
    NoBarAlternatives(pattern);
    var i, j := 0, 0;
    while i < |pattern|
      invariant i <= |pattern| && j <= |str| && SameFits(pattern, str, i, j)
    {
      var p, s := pattern[i..], str[j..];
      if pattern[i] == '?' && j < |str| {
        SameFitsStep(pattern, str, i, j);
      } else if pattern[i] == '$' {
        r := if j == |str| then j else -1;
        EndAnswer(p, s);
        AnswerFromRest(pattern, str, i, j, if r == -1 then -1 else 0);
        return r;
      } else if pattern[i] == '*' {
        var res := MatchStar(p, s);
        AnswerFromRest(pattern, str, i, j, res);
        return if res == -1 then -1 else j + res;
      } else if j == |str| || Lower(pattern[i]) != Lower(str[j]) {
        MismatchAnswer(p, s);
        AnswerFromRest(pattern, str, i, j, -1);
        return -1;
      } else {
        SameFitsStep(pattern, str, i, j);
      }
      i, j := i + 1, j + 1;
    }
    assert Fits(pattern[i..], str[j..], [], 0);
    AnswerFromRest(pattern, str, i, j, 0);
    return j;
  }

  /** The wildcard case: gives back one character at a time until the rest of the pattern matches. */
  method MatchStar(p: string, s: string) returns (r: int)
    requires IsCString(p) && IsCString(s) && '|' !in p && p != [] && p[0] == '*'
    ensures IsAnswer(p, s, r)
    decreases |p|, 0
  {
    var len := StarReach(p, s);
    var rest := p[StarWidth(p)..];
    if rest == [] {
      TrailingStarAnswer(p, s);
      return len;
    }
    NoBarAlternatives(rest);
    var res := MatchPrefix(rest, s[len..]);
    while res == -1 && len > 0
      invariant len <= StarReach(p, s) && IsAnswer(rest, s[len..], res)
      invariant forall v :: len < v <= StarReach(p, s) ==> NeverFits(rest, s[v..])
      decreases len
    {
      len := len - 1;
      res := MatchPrefix(rest, s[len..]);
    }
    StarAnswer(p, s, len, res);
    return if res == -1 then -1 else res + len;
  }

  lemma NoBarAlternatives(p: string)
    requires '|' !in p
    ensures Alternatives(p) == [p]
  {
  }

  lemma EndAnswer(p: string, s: string)
    requires p != [] && p[0] == '$'
    ensures IsAnswer(p, s, if s == [] then 0 else -1)
  {
    if s == [] {
      assert Fits(p, s, [], 0);
    }
  }

  lemma MismatchAnswer(p: string, s: string)
    requires p != [] && p[0] != '$' && p[0] != '*' && !HeadMatches(p, s)
    ensures IsAnswer(p, s, -1)
  {
  }

  lemma TrailingStarAnswer(p: string, s: string)
    requires p != [] && p[0] == '*' && StarWidth(p) == |p|
    ensures IsAnswer(p, s, StarReach(p, s))
  {
    var w := StarReach(p, s);
    assert Fits(p[StarWidth(p)..], s[w..], [], 0);
    FitsAfterStar(p, s, w, [], 0);
    GreediestAfterStar(p, s, w, []);
    assert Fits(p, s, [w] + [], w);
  }

  lemma RestFits(p: string, s: string, runs: seq<nat>, n: nat)
    requires p != [] && p[0] == '*' && Fits(p, s, runs, n)
    ensures runs != [] && runs[0] <= StarReach(p, s) && !NeverFits(p[StarWidth(p)..], s[runs[0]..])
  {
    assert Fits(p[StarWidth(p)..], s[runs[0]..], runs[1..], n - runs[0]);
  }

  lemma StarAnswer(p: string, s: string, len: nat, res: int)
    requires p != [] && p[0] == '*' && len <= StarReach(p, s)
    requires IsAnswer(p[StarWidth(p)..], s[len..], res) && (res == -1 ==> len == 0)
    requires forall v :: len < v <= StarReach(p, s) ==> NeverFits(p[StarWidth(p)..], s[v..])
    ensures IsAnswer(p, s, if res == -1 then -1 else res + len)
  {
    var rest := p[StarWidth(p)..];
    if res == -1 {
      forall runs, n: nat | Fits(p, s, runs, n) ensures false {
        RestFits(p, s, runs, n);
      }
    } else {
      var runs :| Fits(rest, s[len..], runs, res) && IsGreediest(rest, s[len..], runs);
      FitsAfterStar(p, s, len, runs, res);
      GreediestAfterStar(p, s, len, runs);
    }
  }

  // ----- What the answers mean

  /** How many wildcards are read; it depends on the pattern alone. */
  ghost function Wildcards(p: string): nat
    decreases |p|
  {
    if p == [] || p[0] == '$' then 0
    else if p[0] == '*' then 1 + Wildcards(p[StarWidth(p)..])
    else Wildcards(p[1..])
  }

  /** A fit stays within the text and has one run per wildcard. */
  lemma {:induction false} FitBounds(p: string, s: string, runs: seq<nat>, n: nat)
    requires Fits(p, s, runs, n)
    ensures n <= |s| && |runs| == Wildcards(p)
    ensures n == 0 ==> forall k :: 0 <= k < |runs| ==> runs[k] == 0
    decreases |p|
  {
    if p != [] && p[0] == '*' {
      FitBounds(p[StarWidth(p)..], s[runs[0]..], runs[1..], n - runs[0]);
      assert runs == [runs[0]] + runs[1..];
    } else if p != [] && p[0] != '$' {
      FitBounds(p[1..], s[1..], runs, n - 1);
    }
  }

  /** The lengths of the runs decide how much text is matched. */
  lemma {:induction false} RunsDecide(p: string, s: string, runs: seq<nat>, n: nat, n': nat)
    requires Fits(p, s, runs, n) && Fits(p, s, runs, n')
    ensures n == n'
    decreases |p|
  {
    if p != [] && p[0] == '*' {
      RunsDecide(p[StarWidth(p)..], s[runs[0]..], runs[1..], n - runs[0], n' - runs[0]);
    } else if p != [] && p[0] != '$' {
      RunsDecide(p[1..], s[1..], runs, n - 1, n' - 1);
    }
  }

  lemma {:induction false} LexLeAntisymmetric(a: seq<nat>, b: seq<nat>)
    requires LexLe(a, b) && LexLe(b, a) && |a| == |b|
    ensures a == b
  {
    if a == [] {
    } else {
      LexLeAntisymmetric(a[1..], b[1..]);
      assert a == [a[0]] + a[1..] && b == [b[0]] + b[1..];
    }
  }

  lemma {:induction false} LexLeZeros(a: seq<nat>, zeros: seq<nat>)
    requires LexLe(a, zeros) && |a| == |zeros| && forall k :: 0 <= k < |zeros| ==> zeros[k] == 0
    ensures a == zeros
  {
    if a == [] {
    } else {
      LexLeZeros(a[1..], zeros[1..]);
      assert a == [a[0]] + a[1..] && zeros == [zeros[0]] + zeros[1..];
    }
  }

  /** There is only one greediest fit, so a pattern and a text have only one answer. */
  lemma AnswerIsUnique(p: string, s: string, r: int, r': int)
    requires IsAnswer(p, s, r) && IsAnswer(p, s, r')
    ensures r == r' && r <= |s|
  {
    if r >= 0 {
      var runs :| Fits(p, s, runs, r) && IsGreediest(p, s, runs);
      var runs' :| Fits(p, s, runs', r') && IsGreediest(p, s, runs');
      FitBounds(p, s, runs, r);
      FitBounds(p, s, runs', r');
      LexLeAntisymmetric(runs, runs');
      RunsDecide(p, s, runs, r, r');
    }
  }

  ghost predicate FitsNonempty(p: string, s: string) {
    exists runs, n: nat :: n > 0 && Fits(p, s, runs, n)
  }

  /** The greediest fit is empty only if every fit is. */
  lemma AnswerIsPositive(p: string, s: string, r: int)
    requires IsAnswer(p, s, r)
    ensures r > 0 <==> FitsNonempty(p, s)
  {
    if r == 0 {
      var zeros :| Fits(p, s, zeros, 0) && IsGreediest(p, s, zeros);
      FitBounds(p, s, zeros, 0);
      forall runs, n: nat | Fits(p, s, runs, n) ensures n == 0 {
        FitBounds(p, s, runs, n);
        LexLeZeros(runs, zeros);
        RunsDecide(p, s, zeros, 0, n);
      }
    }
  }

  /**
   * What the callers test: the answer is positive exactly when some alternative stands for a nonempty prefix of the
   * text. It is -1 exactly when none does and the last one does not even stand for the empty prefix.
   */
  lemma {:induction false} OverallAnswer(alts: seq<string>, s: string, r: int)
    requires alts != [] && IsOverallAnswer(alts, s, r)
    ensures r > 0 <==> exists k :: 0 <= k < |alts| && FitsNonempty(alts[k], s)
    ensures r == -1 <==> NeverFits(alts[|alts| - 1], s) && forall k :: 0 <= k < |alts| ==> !FitsNonempty(alts[k], s)
    ensures -1 <= r <= |s|
  {
    if |alts| == 1 {
      AnswerIsPositive(alts[0], s, r);
      AnswerIsUnique(alts[0], s, r, r);
    } else {
      var r0 :| IsAnswer(alts[0], s, r0) && (if r0 > 0 then r == r0 else IsOverallAnswer(alts[1..], s, r));
      AnswerIsPositive(alts[0], s, r0);
      AnswerIsUnique(alts[0], s, r0, r0);
      if r0 <= 0 {
        OverallAnswer(alts[1..], s, r);
        assert forall k :: 0 < k < |alts| ==> alts[k] == alts[1..][k - 1];
      }
    }
  }

  lemma AlternativesExample()
    ensures Alternatives("$|a") == ["$", "a"]
  {
    var p := "$|a";
    assert p[1..] == "|a" && p[2..] == "a" && p[..1] == "$";
    assert FindBar("|a") == 0;
    assert FindBar(p) == 1;
    NoBarAlternatives("a");
  }

  /** An empty match of an alternative that is not the last one goes unnoticed. */
  lemma EmptyMatchIsLost(r: int)
    requires IsOverallAnswer(Alternatives("$|a"), "", r)
    ensures r == -1 && IsAnswer("$", "", 0)
  {
    AlternativesExample();
    EndAnswer("$", "");
    MismatchAnswer("a", "");
    LastAnswerCounts("$", "a", "", 0, -1, r);
  }

  lemma LastAnswerCounts(a: string, b: string, s: string, ra: int, rb: int, r: int)
    requires IsAnswer(a, s, ra) && IsAnswer(b, s, rb) && IsOverallAnswer([a, b], s, r)
    ensures r == if ra > 0 then ra else rb
  {
    var r0 :| IsAnswer(a, s, r0) && (if r0 > 0 then r == r0 else IsOverallAnswer([a, b][1..], s, r));
    AnswerIsUnique(a, s, ra, r0);
    if r0 <= 0 {
      assert [a, b][1..] == [b];
      AnswerIsUnique(b, s, rb, r);
    }
  }
}
