/** A deck of cards: building it, shuffling it, and dealing hands of five from it. */
module Deck {
  import opened Basics

  const MAX_COUNT: nat := 52
  const MIN_VALUE := 1
  const MAX_VALUE := 13

  /** Colours run from 1 to 4; a zero value or colour makes a null card. */
  datatype Card = Card(value: int, color: int) {
    predicate IsNull() {
      value == 0 || color == 0
    }

    /** All null cards count as the same card. */
    predicate Same(other: Card) {
      (IsNull() && other.IsNull()) || this == other
    }

    /** Colour first, then value. */
    predicate Before(other: Card) {
      color < other.color || (color == other.color && value < other.value)
    }
  }

  type Group = g: seq<Card> | |g| == 5 witness seq(5, _ => Card(0, 0))

  /** No card of the group is the same as `c`. */
  predicate Outside(c: Card, group: seq<Card>) {
    forall i :: 0 <= i < |group| ==> !c.Same(group[i])
  }

  predicate Ascending(s: seq<Card>) {
    forall i, j :: 0 <= i < j < |s| ==> s[i].Before(s[j])
  }

  /** The cards of a range of values in the four colours, without a group. */
  predicate InRange(c: Card, min: int, max: int, group: seq<Card>) {
    min <= c.value <= max && 1 <= c.color <= 4 && Outside(c, group)
  }

  /** Each card of the range outside the group, once. */
  ghost predicate IsDeck(deck: seq<Card>, min: int, max: int, group: seq<Card>) {
    NoDup(deck) && forall c :: c in deck <==> InRange(c, min, max, group)
  }

  // ----- Building

  function CardAt(i: nat, min: int, width: nat): Card
    requires width > 0
  {
    Card(i % width + min, i / width + 1)
  }

  /** The cards of the first `n` positions that are kept. */
  function Kept(n: nat, min: int, width: nat, group: seq<Card>): (s: seq<Card>)
    requires width > 0
    ensures |s| <= n && (group == [] ==> |s| == n)
  {
    if n == 0 then []
    else if Outside(CardAt(n - 1, min, width), group) then Kept(n - 1, min, width, group) + [CardAt(n - 1, min, width)]
    else Kept(n - 1, min, width, group)
  }

  /** Later positions hold later cards, all of them within the range. */
  lemma PositionsAscend(i: nat, j: nat, min: int, width: nat)
    requires width > 0 && i < j < 4 * width
    ensures CardAt(i, min, width).Before(CardAt(j, min, width))
  {
    Division(i, width);
    Division(j, width);
    var d := j / width - i / width;
    assert d * width == j / width * width - i / width * width;
    MultipleIsFar(d, width);
  }

  lemma PositionInRange(i: nat, min: int, width: nat)
    requires width > 0 && i < 4 * width
    ensures var c := CardAt(i, min, width); min <= c.value < min + width && 1 <= c.color <= 4
  {
    Division(i, width);
    var d := i / width - 3;
    assert d * width == i / width * width - 3 * width;
    MultipleIsFar(d, width);
  }

  /** Every card of the range has its position. */
  lemma PositionOf(c: Card, min: int, width: nat) returns (i: nat)
    requires width > 0 && min <= c.value < min + width && 1 <= c.color <= 4
    ensures i < 4 * width && CardAt(i, min, width) == c
  {
    i := (c.color - 1) * width + (c.value - min);
    assert (c.color - 1) * width <= 3 * width;
    DivisionIsUnique(i, width, c.color - 1, c.value - min);
  }

  lemma {:induction false} KeptFrom(n: nat, min: int, width: nat, group: seq<Card>)
    requires width > 0 && n <= 4 * width
    ensures Ascending(Kept(n, min, width, group))
    ensures forall c :: c in Kept(n, min, width, group) <==>
      Outside(c, group) && exists i: nat :: i < n && CardAt(i, min, width) == c
  {
    if n == 0 {
    } else {
      KeptFrom(n - 1, min, width, group);
      var before := Kept(n - 1, min, width, group);
      var last := CardAt(n - 1, min, width);
      forall k | 0 <= k < |before| ensures before[k].Before(last) {
        assert before[k] in before;
        var i: nat :| i < n - 1 && CardAt(i, min, width) == before[k];
        PositionsAscend(i, n - 1, min, width);
      }
      forall c | c in Kept(n, min, width, group)
        ensures Outside(c, group) && exists i: nat :: i < n && CardAt(i, min, width) == c
      {
        if c in before {
          var i: nat :| i < n - 1 && CardAt(i, min, width) == c;
          assert i < n;
        } else {
          assert c == last;
        }
      }
    }
  }

  /** The new deck holds each card of the range outside the group exactly once, in ascending order. */
  lemma NewDeckIsComplete(min: int, width: nat, group: seq<Card>)
    requires width > 0
    ensures
      var deck := Kept(4 * width, min, width, group);
      Ascending(deck) && IsDeck(deck, min, min + width - 1, group)
  {
    KeptFrom(4 * width, min, width, group);
    var deck := Kept(4 * width, min, width, group);
    forall c ensures c in deck <==> InRange(c, min, min + width - 1, group) {
      if c in deck {
        var i: nat :| i < 4 * width && CardAt(i, min, width) == c;
        PositionInRange(i, min, width);
      }
      if InRange(c, min, min + width - 1, group) {
        var i := PositionOf(c, min, width);
      }
    }
    forall i, j | 0 <= i < j < |deck| ensures deck[i] != deck[j] {
      assert deck[i].Before(deck[j]);
    }
  }

  /** Order and membership leave only one deck. */
  lemma {:induction false} DeckIsUnique(s: seq<Card>, t: seq<Card>)
    requires Ascending(s) && Ascending(t) && forall c :: c in s <==> c in t
    ensures s == t
  {
    if s == [] {
      HasMemberOrEmpty(t);
    } else {
      assert s[0] in t && t[0] in s;
      FirstIsLeast(s, t[0]);
      FirstIsLeast(t, s[0]);
      forall c ensures c in s[1..] <==> c in t[1..] {
        TailMembers(s, c);
        TailMembers(t, c);
      }
      DeckIsUnique(s[1..], t[1..]);
    }
  }

  lemma HasMemberOrEmpty(s: seq<Card>)
    ensures s == [] || exists c :: c in s
  {
    if s != [] {
      assert s[0] in s;
    }
  }

  lemma FirstIsLeast(s: seq<Card>, c: Card)
    requires Ascending(s) && c in s
    ensures c == s[0] || s[0].Before(c)
  {
    var i :| 0 <= i < |s| && s[i] == c;
  }

  lemma TailMembers(s: seq<Card>, c: Card)
    requires Ascending(s) && s != []
    ensures c in s[1..] <==> c in s && c != s[0]
  {
    if c in s[1..] {
      var i :| 0 <= i < |s[1..]| && s[1..][i] == c;
      assert s[i + 1] == c && s[0].Before(s[i + 1]);
    }
    if c in s && c != s[0] {
      var i :| 0 <= i < |s| && s[i] == c;
      assert s[1..][i - 1] == c;
    }
  }

  /** The group takes away from the range exactly the cards that it lists. */
  ghost predicate TakesListed(min: int, max: int, group: seq<Card>) {
    forall c :: InRange(c, min, max, group) <==> min <= c.value <= max && 1 <= c.color <= 4 && c !in group
  }

  predicate HasNull(group: seq<Card>) {
    exists i :: 0 <= i < |group| && (group[i].value == 0 || group[i].color == 0)
  }

  predicate ListsZeros(group: seq<Card>) {
    Card(0, 1) in group && Card(0, 2) in group && Card(0, 3) in group && Card(0, 4) in group
  }

  /** Exactly when the range has no card of value 0, or the group has no null slot, or it lists all the zeros anyway. */
  lemma TakesListedIff(min: int, max: int, group: seq<Card>)
    requires min <= max
    ensures TakesListed(min, max, group) <==> !(min <= 0 <= max) || !HasNull(group) || ListsZeros(group)
  {
    if !(min <= 0 <= max) || !HasNull(group) || ListsZeros(group) {
      forall c ensures InRange(c, min, max, group) <==> min <= c.value <= max && 1 <= c.color <= 4 && c !in group {
        if min <= c.value <= max && 1 <= c.color <= 4 {
          OutsideIffUnlisted(c, group);
        }
      }
    } else {
      var color :=
        if Card(0, 1) !in group then 1 else if Card(0, 2) !in group then 2 else if Card(0, 3) !in group then 3 else 4;
      var slot :| 0 <= slot < |group| && group[slot].IsNull();
      assert Card(0, color).Same(group[slot]);
      assert !InRange(Card(0, color), min, max, group);
    }
  }

  /** A coloured card is outside the group exactly when it is not listed, and not a null one beside a null slot. */
  lemma OutsideIffUnlisted(c: Card, group: seq<Card>)
    ensures Outside(c, group) <==> c !in group && !(c.IsNull() && HasNull(group))
  {
    if c in group {
      var i :| 0 <= i < |group| && group[i] == c;
      assert c.Same(group[i]);
    }
    if c.IsNull() && HasNull(group) {
      var i :| 0 <= i < |group| && group[i].IsNull();
      assert c.Same(group[i]);
    }
  }

  /** For instance, one null slot in the group removes from a range that starts at 0 cards that nobody listed. */
  lemma NullSlotRemovesZeros(max: int, group: seq<Card>, slot: Card, color: int)
    requires 0 <= max && 1 <= color <= 4 && slot in group && (slot.value == 0 || slot.color == 0)
    ensures !InRange(Card(0, color), 0, max, group)
    ensures Card(0, color) !in group ==> InRange(Card(0, color), 0, max, [])
  {
    var i :| 0 <= i < |group| && group[i] == slot;
    assert Card(0, color).Same(group[i]);
  }

  // ----- Shuffling

  function Swapped(s: seq<Card>, i: nat, j: nat): seq<Card>
    requires i < |s| && j < |s|
  {
    s[i := s[j]][j := s[i]]
  }

  /** The position from `i` on that a draw selects among `n`. */
  function Pick(n: nat, i: nat, draw: nat): (j: nat)
    requires i < n
    ensures i <= j < n
  {
    i + draw % (n - i)
  }

  /** One round of swaps from position `i` on, with one draw for each position. */
  function Round(s: seq<Card>, i: nat, draws: seq<nat>): (t: seq<Card>)
    requires i <= |s| == |draws|
    ensures |t| == |s|
    decreases |s| - i
  {
    if i == |s| then s else Round(Swapped(s, i, Pick(|s|, i, draws[i])), i + 1, draws)
  }

  function Rounds(s: seq<Card>, draws: seq<seq<nat>>): (t: seq<Card>)
    requires forall k :: 0 <= k < |draws| ==> |draws[k]| == |s|
    ensures |t| == |s|
  {
    if draws == [] then s else Round(Rounds(s, draws[..|draws| - 1]), 0, draws[|draws| - 1])
  }

  lemma SwapPermutes(s: seq<Card>, i: nat, j: nat)
    requires i < |s| && j < |s|
    ensures multiset(Swapped(s, i, j)) == multiset(s)
  {
  }

  lemma {:induction false} RoundPermutes(s: seq<Card>, i: nat, draws: seq<nat>)
    requires i <= |s| == |draws|
    ensures multiset(Round(s, i, draws)) == multiset(s) && Round(s, i, draws)[..i] == s[..i]
    decreases |s| - i
  {
    if i == |s| {
    } else {
      var t := Swapped(s, i, Pick(|s|, i, draws[i]));
      SwapPermutes(s, i, Pick(|s|, i, draws[i]));
      RoundPermutes(t, i + 1, draws);
      assert Round(s, i, draws)[..i] == Round(s, i, draws)[..i + 1][..i];
      assert t[..i + 1][..i] == s[..i];
    }
  }

  /** Whatever the draws and however many rounds, the deck keeps its cards. */
  lemma {:induction false} ShufflePermutes(s: seq<Card>, draws: seq<seq<nat>>)
    requires forall k :: 0 <= k < |draws| ==> |draws[k]| == |s|
    ensures multiset(Rounds(s, draws)) == multiset(s)
  {
    if draws == [] {
    } else {
      ShufflePermutes(s, draws[..|draws| - 1]);
      RoundPermutes(Rounds(s, draws[..|draws| - 1]), 0, draws[|draws| - 1]);
    }
  }

  /** Equal multisets hold the same cards, and repeat them alike. */
  lemma PermutationKeepsDeck(s: seq<Card>, t: seq<Card>, min: int, max: int, group: seq<Card>)
    requires IsDeck(s, min, max, group) && multiset(s) == multiset(t)
    ensures IsDeck(t, min, max, group)
  {
    forall c ensures c in s <==> c in t {
      assert c in s <==> c in multiset(s);
      assert c in t <==> c in multiset(t);
    }
    PermutationKeepsNoDup(s, t);
  }

  lemma {:induction false} CountOf(s: seq<Card>, c: Card)
    requires NoDup(s)
    ensures multiset(s)[c] <= 1
  {
    if s == [] {
    } else {
      assert s == [s[0]] + s[1..];
      CountOf(s[1..], c);
      assert c == s[0] ==> c !in s[1..];
    }
  }

  lemma PermutationKeepsNoDup(s: seq<Card>, t: seq<Card>)
    requires NoDup(s) && multiset(s) == multiset(t)
    ensures NoDup(t)
  {
    forall i, j | 0 <= i < j < |t| ensures t[i] != t[j] {
      CountOf(s, t[i]);
      var before, after := t[..j], t[j..];
      assert t == before + after && before[i] == t[i] && after[0] == t[j];
      assert multiset(t)[t[i]] == multiset(before)[t[i]] + multiset(after)[t[i]];
      assert t[i] in multiset(before) && t[j] in multiset(after);
    }
  }

  /** Draws already reduced to what is left at their position. */
  predicate Reduced(draws: seq<nat>) {
    forall i :: 0 <= i < |draws| ==> draws[i] < |draws| - i
  }

  lemma ReducedPick(s: seq<Card>, i: nat, draw: nat)
    requires i < |s| && draw < |s| - i
    ensures Pick(|s|, i, draw) == i + draw
  {
  }

  lemma FindCard(s: seq<Card>, t: seq<Card>, i: nat) returns (j: nat)
    requires i < |s| == |t| && s[..i] == t[..i] && multiset(s) == multiset(t)
    ensures i <= j < |s| && s[j] == t[i]
  {
    assert s == s[..i] + s[i..] && t == t[..i] + t[i..];
    assert multiset(s) == multiset(s[..i]) + multiset(s[i..]);
    assert multiset(t) == multiset(t[..i]) + multiset(t[i..]);
    var c := t[i..][0];
    assert multiset(s)[c] == multiset(s[..i])[c] + multiset(s[i..])[c];
    assert c in multiset(t[i..]);
    assert c in multiset(s[i..]);
    var k :| 0 <= k < |s[i..]| && s[i..][k] == t[i];
    j := i + k;
  }

  lemma SettleNext(s: seq<Card>, t: seq<Card>, i: nat) returns (j: nat, next: seq<Card>)
    requires i < |s| == |t| && s[..i] == t[..i] && multiset(s) == multiset(t)
    ensures i <= j < |s| && next == Swapped(s, i, j)
    ensures next[..i + 1] == t[..i + 1] && multiset(next) == multiset(t)
  {
    j := FindCard(s, t, i);
    next := Swapped(s, i, j);
    SwapPermutes(s, i, j);
    assert next[..i + 1] == s[..i] + [t[i]] == t[..i + 1];
  }

  lemma {:induction false} ReachFrom(s: seq<Card>, t: seq<Card>, i: nat, head: seq<nat>) returns (draws: seq<nat>)
    requires i == |head| <= |s| == |t| && s[..i] == t[..i] && multiset(s) == multiset(t)
    requires forall k :: 0 <= k < i ==> head[k] < |s| - k
    ensures |draws| == |s| && Reduced(draws) && Round(s, i, draws) == t && draws[..i] == head
    decreases |s| - i
  {
    if i == |s| {
      draws := head;
      assert s[..i] == s && t[..i] == t;
    } else {
      var j, next := SettleNext(s, t, i);
      draws := ReachFrom(next, t, i + 1, head + [j - i]);
      assert draws[i] == draws[..i + 1][i] && draws[..i] == draws[..i + 1][..i];
      ReducedPick(s, i, j - i);
    }
  }

  /** Every arrangement of the cards can come out of a single round. */
  lemma EveryOrderIsReachable(s: seq<Card>, t: seq<Card>) returns (draws: seq<nat>)
    requires multiset(s) == multiset(t)
    ensures |draws| == |s| && Reduced(draws) && Round(s, 0, draws) == t
  {
    assert |s| == |t| by {
      assert |multiset(s)| == |s| && |multiset(t)| == |t|;
    }
    draws := ReachFrom(s, t, 0, []);
  }

  /** Draws that pick nothing but the card in place. */
  function NoSwaps(n: nat): (draws: seq<nat>)
    ensures |draws| == n && forall i :: 0 <= i < n ==> draws[i] == 0
  {
    seq(n, _ => 0)
  }

  /** Whatever the rounds before, the last round can still bring about every arrangement. */
  lemma EveryOrderAfterRounds(s: seq<Card>, t: seq<Card>, before: seq<seq<nat>>) returns (last: seq<nat>)
    requires multiset(s) == multiset(t) && forall k :: 0 <= k < |before| ==> |before[k]| == |s|
    ensures |last| == |s| && Rounds(s, before + [last]) == t
  {
    ShufflePermutes(s, before);
    last := EveryOrderIsReachable(Rounds(s, before), t);
    assert (before + [last])[..|before|] == before;
  }

  /** Any number of rounds can bring about exactly the arrangements of the cards. */
  lemma ReachableIff(s: seq<Card>, t: seq<Card>, times: nat)
    requires times > 0
    ensures multiset(s) == multiset(t) <==> exists draws: seq<seq<nat>> :: IsShuffle(s, t, times, draws)
  {
    if multiset(s) == multiset(t) {
      var before := seq(times - 1, _ => NoSwaps(|s|));
      var last := EveryOrderAfterRounds(s, t, before);
      assert IsShuffle(s, t, times, before + [last]);
    }
    if draws: seq<seq<nat>> :| IsShuffle(s, t, times, draws) {
      ShufflePermutes(s, draws);
    }
  }

  /** Shuffling `s` so many times with these draws gives `t`. */
  ghost predicate IsShuffle(s: seq<Card>, t: seq<Card>, times: nat, draws: seq<seq<nat>>) {
    |draws| == times && (forall k :: 0 <= k < |draws| ==> |draws[k]| == |s|) && Rounds(s, draws) == t
  }

  /** Of a draw, only the remainder by the number of positions left counts. */
  lemma {:induction false} OnlyRemaindersCount(s: seq<Card>, i: nat, a: seq<nat>, b: seq<nat>)
    requires i <= |s| == |a| == |b| && forall k :: i <= k < |s| ==> a[k] % (|s| - k) == b[k] % (|s| - k)
    ensures Round(s, i, a) == Round(s, i, b)
    decreases |s| - i
  {
    if i == |s| {
    } else {
      OnlyRemaindersCount(Swapped(s, i, Pick(|s|, i, a[i])), i + 1, a, b);
    }
  }

  lemma SwapKeepsNoDup(s: seq<Card>, i: nat, j: nat)
    requires i < |s| && j < |s| && NoDup(s)
    ensures NoDup(Swapped(s, i, j))
  {
  }

  lemma RoundSettles(s: seq<Card>, i: nat, draws: seq<nat>)
    requires i < |s| == |draws| && Reduced(draws)
    ensures Round(s, i, draws)[i] == s[i + draws[i]]
  {
    ReducedPick(s, i, draws[i]);
    var t := Swapped(s, i, i + draws[i]);
    RoundPermutes(t, i + 1, draws);
    assert Round(s, i, draws)[..i + 1][i] == t[..i + 1][i];
  }

  lemma {:induction false} SameDrawsFrom(s: seq<Card>, i: nat, a: seq<nat>, b: seq<nat>)
    requires i <= |s| == |a| == |b| && NoDup(s) && Reduced(a) && Reduced(b)
    requires Round(s, i, a) == Round(s, i, b)
    ensures a[i..] == b[i..]
    decreases |s| - i
  {
    if i == |s| {
    } else {
      RoundSettles(s, i, a);
      RoundSettles(s, i, b);
      assert a[i] == b[i];
      ReducedPick(s, i, a[i]);
      SwapKeepsNoDup(s, i, i + a[i]);
      SameDrawsFrom(Swapped(s, i, i + a[i]), i + 1, a, b);
      assert a[i..] == [a[i]] + a[i + 1..] && b[i..] == [b[i]] + b[i + 1..];
    }
  }

  /** Each arrangement of distinct cards comes from exactly one list of reduced draws, so a round favours none. */
  lemma DrawsAreDetermined(s: seq<Card>, a: seq<nat>, b: seq<nat>)
    requires |s| == |a| == |b| && NoDup(s) && Reduced(a) && Reduced(b)
    requires Round(s, 0, a) == Round(s, 0, b)
    ensures a == b
  {
    SameDrawsFrom(s, 0, a, b);
    assert a[0..] == a && b[0..] == b;
  }

  // ----- Dealing

  /** The hands are the first fives of the deck, in order. */
  ghost predicate AreFives(deck: seq<Card>, hands: seq<seq<Card>>) {
    5 * |hands| <= |deck| && forall k :: 0 <= k < |hands| ==> hands[k] == deck[5 * k..5 * k + 5]
  }

  lemma FivesOfInit(deck: seq<Card>, hands: seq<seq<Card>>, before: nat, at: nat)
    requires hands != [] && AreFives(deck, hands) && at == 5 * |hands| && before == at - 5
    ensures AreFives(deck, hands[..|hands| - 1]) && hands[|hands| - 1] == deck[before..at]
  {
  }

  lemma Prefixes(deck: seq<Card>, before: nat, at: nat)
    requires before <= at <= |deck|
    ensures deck[..before] + deck[before..at] == deck[..at] && deck[..at] + deck[at..] == deck
  {
  }

  lemma {:induction false} DealtIsPrefix(deck: seq<Card>, hands: seq<seq<Card>>, at: nat)
    requires AreFives(deck, hands) && at == 5 * |hands|
    ensures Flatten(hands) == deck[..at]
  {
    if hands == [] {
    } else {
      FivesOfInit(deck, hands, at - 5, at);
      DealtIsPrefix(deck, hands[..|hands| - 1], at - 5);
      Prefixes(deck, at - 5, at);
    }
  }

  /** Dealt and undealt cards together are the deck. */
  lemma DealtAndUndealt(deck: seq<Card>, hands: seq<seq<Card>>)
    requires AreFives(deck, hands)
    ensures Flatten(hands) + deck[5 * |hands|..] == deck
  {
    DealtIsPrefix(deck, hands, 5 * |hands|);
    Prefixes(deck, 0, 5 * |hands|);
  }

  /** No card is in two hands. */
  lemma HandsAreDisjoint(deck: seq<Card>, hands: seq<seq<Card>>, a: nat, b: nat, i: nat, j: nat)
    requires NoDup(deck) && AreFives(deck, hands) && a < |hands| && b < |hands| && i < 5 && j < 5
    ensures hands[a][i] == hands[b][j] <==> a == b && i == j
  {
    assert hands[a][i] == deck[5 * a + i] && hands[b][j] == deck[5 * b + j];
    if hands[a][i] == hands[b][j] {
      assert 5 * a + i == 5 * b + j;
    }
  }

  lemma HandLeavesDeck(deck: seq<Card>, hands: seq<seq<Card>>, a: nat, i: nat)
    requires NoDup(deck) && AreFives(deck, hands) && a < |hands| && i < 5
    ensures hands[a][i] !in deck[5 * |hands|..]
  {
    assert hands[a][i] == deck[5 * a + i];
    var rest := deck[5 * |hands|..];
    forall k | 0 <= k < |rest| ensures rest[k] != hands[a][i] {
      assert rest[k] == deck[5 * |hands| + k];
    }
  }

  lemma FiveCards(deck: seq<Card>, at: nat, five: seq<Card>)
    requires |five| == 5 && at + 5 <= |deck|
    requires five[0] == deck[at] && five[1] == deck[at + 1] && five[2] == deck[at + 2]
    requires five[3] == deck[at + 3] && five[4] == deck[at + 4]
    ensures five == deck[at..at + 5]
  {
  }

  /** `all` begins with `some`, and goes on with the next `n` fives of the deck. */
  ghost predicate DealtNext(deck: seq<Card>, some: seq<seq<Card>>, all: seq<seq<Card>>, n: nat) {
    |all| == |some| + n && all[..|some|] == some && AreFives(deck, all)
  }

  /** How many of `players` players a rest of `left` cards can serve. */
  function Served(left: nat, players: nat): nat {
    if 5 * players <= left then players else left / 5
  }

  class OneDeck {
    const cards: array<Card>
    var pokerNum: nat
    var dealPosition: int
    var minValue: int
    var maxValue: int
    /** The group left out when the deck was built, and the hands dealt since it was built or shuffled. */
    ghost var excluded: seq<Card>
    ghost var dealt: seq<seq<Card>>

    ghost predicate Valid()
      reads this, cards
    {
      && cards.Length == MAX_COUNT && pokerNum <= MAX_COUNT
      && IsDeck(Contents(), minValue, maxValue, excluded)
      && dealPosition == 5 * |dealt| && AreFives(Contents(), dealt)
    }

    ghost function Contents(): seq<Card>
      reads this, cards
      requires pokerNum <= cards.Length
    {
      cards[..pokerNum]
    }

    constructor ()
      ensures Valid() && fresh(cards) && dealt == []
      ensures minValue == MIN_VALUE && maxValue == MAX_VALUE
      ensures Contents() == Kept(52, 1, 13, []) && excluded == []
    {
      cards := new Card[MAX_COUNT](_ => Card(0, 0));
      pokerNum, dealPosition, minValue, maxValue, excluded, dealt := 0, 0, 0, 0, [], [];
      new;
      InitPoker(MIN_VALUE, MAX_VALUE);
    }

    method InitPoker(minPoker: int, maxPoker: int)
      requires cards.Length == MAX_COUNT && minPoker <= maxPoker && 4 * (maxPoker - minPoker + 1) <= MAX_COUNT
      modifies this, cards
      ensures Valid() && dealt == [] && minValue == minPoker && maxValue == maxPoker
      ensures Contents() == Kept(4 * (maxPoker - minPoker + 1), minPoker, maxPoker - minPoker + 1, []) && excluded == []
    {
      pokerNum, dealPosition, minValue, maxValue, excluded, dealt := 0, 0, 0, 0, [], [];
      var width := maxPoker - minPoker + 1;
      var total := 4 * width;
      var i := 0;
      while i < total
        invariant 0 <= i <= total && pokerNum == i && dealPosition == 0 && dealt == [] && excluded == []
        invariant Contents() == Kept(i, minPoker, width, [])
      {
        cards[pokerNum] := Card(i % width + minPoker, i / width + 1);
        pokerNum := pokerNum + 1;
        i := i + 1;
        assert Contents() == cards[..i - 1] + [CardAt(i - 1, minPoker, width)];
      }
      minValue, maxValue := minPoker, maxPoker;
      NewDeckIsComplete(minPoker, width, []);
    }

    method InitPokerExceptGroup(minPoker: int, maxPoker: int, group: Group)
      requires cards.Length == MAX_COUNT && minPoker <= maxPoker && 4 * (maxPoker - minPoker + 1) <= MAX_COUNT
      modifies this, cards
      ensures Valid() && dealt == [] && minValue == minPoker && maxValue == maxPoker
      ensures Contents() == Kept(4 * (maxPoker - minPoker + 1), minPoker, maxPoker - minPoker + 1, group)
      ensures excluded == group
    {
      pokerNum, dealPosition, minValue, maxValue, excluded, dealt := 0, 0, 0, 0, group, [];
      var width := maxPoker - minPoker + 1;
      var total := 4 * width;
      var i := 0;
      while i < total
        invariant 0 <= i <= total && pokerNum <= i && dealPosition == 0 && dealt == [] && excluded == group
        invariant Contents() == Kept(i, minPoker, width, group)
      {
        ghost var before := Contents();
        cards[pokerNum] := Card(i % width + minPoker, i / width + 1);
        var c := cards[pokerNum];
        assert c == CardAt(i, minPoker, width);
        assert cards[..pokerNum] == before && cards[..pokerNum + 1] == before + [c];
        if !(c.Same(group[0]) || c.Same(group[1]) || c.Same(group[2]) || c.Same(group[3]) || c.Same(group[4])) {
          pokerNum := pokerNum + 1;
        }
        i := i + 1;
      }
      minValue, maxValue := minPoker, maxPoker;
      NewDeckIsComplete(minPoker, width, group);
    }

    /** Shuffles `times` times; `draws` are the values that rand() returns, round by round. */
    method Shuffle(times: int, draws: seq<seq<nat>>)
      requires Valid()
      requires |draws| == if times < 0 then 0 else times
      requires forall k :: 0 <= k < |draws| ==> |draws[k]| == pokerNum
      modifies this, cards
      ensures Valid() && dealt == [] && pokerNum == old(pokerNum)
      ensures minValue == old(minValue) && maxValue == old(maxValue) && excluded == old(excluded)
      ensures Contents() == Rounds(old(Contents()), draws)
    {
      var t := 0;
      assert draws[..0] == [];
      while t < times
        invariant 0 <= t <= |draws| && pokerNum == old(pokerNum)
        invariant minValue == old(minValue) && maxValue == old(maxValue) && excluded == old(excluded)
        invariant cards.Length == MAX_COUNT && pokerNum <= MAX_COUNT
        invariant Contents() == Rounds(old(Contents()), draws[..t])
      {
        assert draws[..t + 1][..t] == draws[..t];
        ShuffleRound(draws[t]);
        t := t + 1;
      }
      assert draws[..t] == draws;
      dealPosition, dealt := 0, [];
      ShufflePermutes(old(Contents()), draws);
      PermutationKeepsDeck(old(Contents()), Contents(), minValue, maxValue, excluded);
    }

    method ShuffleRound(draws: seq<nat>)
      requires cards.Length == MAX_COUNT && pokerNum <= MAX_COUNT && |draws| == pokerNum
      modifies cards
      ensures Contents() == Round(old(Contents()), 0, draws)
    {
      var index := 0;
      while index < pokerNum
        invariant index <= pokerNum
        invariant Round(Contents(), index, draws) == Round(old(Contents()), 0, draws)
      {
        ghost var before := Contents();
        var value := Pick(pokerNum, index, draws[index]);
        var median := cards[index];
        cards[index] := cards[value];
        cards[value] := median;
        assert Contents() == Swapped(before, index, value);
        index := index + 1;
      }
    }

    /** However the deck was built, shuffled and dealt: no card is in two places, and none of the deck is missing. */
    lemma HandsAreSafe()
      requires Valid()
      ensures Flatten(dealt) + Undealt() == Contents()
      ensures forall a, b, i, j :: 0 <= a < |dealt| && 0 <= b < |dealt| && 0 <= i < 5 && 0 <= j < 5 ==>
        (dealt[a][i] == dealt[b][j] <==> a == b && i == j)
      ensures forall a, i :: 0 <= a < |dealt| && 0 <= i < 5 ==> dealt[a][i] !in Undealt()
    {
      DealtAndUndealt(Contents(), dealt);
      forall a, b, i, j | 0 <= a < |dealt| && 0 <= b < |dealt| && 0 <= i < 5 && 0 <= j < 5
        ensures dealt[a][i] == dealt[b][j] <==> a == b && i == j
      {
        HandsAreDisjoint(Contents(), dealt, a, b, i, j);
      }
      forall a, i | 0 <= a < |dealt| && 0 <= i < 5 ensures dealt[a][i] !in Undealt() {
        HandLeavesDeck(Contents(), dealt, a, i);
      }
    }

    ghost function Undealt(): seq<Card>
      reads this, cards
      requires Valid()
    {
      Contents()[5 * |dealt|..]
    }

    /** Deals the next five cards, unless fewer than five are left. */
    method DealPoker(poker: array<Card>) returns (ok: bool)
      requires Valid() && poker.Length == 5 && poker != cards
      modifies this`dealPosition, this`dealt, poker
      ensures Valid() && (ok <==> old(dealPosition) + 5 <= pokerNum)
      ensures ok ==> dealt == old(dealt) + [poker[..]] && DealtNext(Contents(), old(dealt), dealt, 1)
      ensures !ok ==> dealt == old(dealt) && poker[..] == old(poker[..])
    {
      if dealPosition < 0 || dealPosition > pokerNum - 5 {
        return false;
      }
      poker[0] := cards[dealPosition];
      poker[1] := cards[dealPosition + 1];
      poker[2] := cards[dealPosition + 2];
      poker[3] := cards[dealPosition + 3];
      poker[4] := cards[dealPosition + 4];
      FiveCards(Contents(), dealPosition, poker[..]);
      dealPosition := dealPosition + 5;
      dealt := dealt + [poker[..]];
      ok := true;
    }

    /** Deals to every player in turn; the answer is true even for players who got no hand. */
    method DealPokers(pokers: seq<array<Card>>, playerNumber: int) returns (ok: bool)
      requires Valid() && playerNumber <= |pokers|
      requires forall i :: 0 <= i < |pokers| ==> pokers[i].Length == 5 && pokers[i] != cards
      requires forall i, j :: 0 <= i < j < |pokers| ==> pokers[i] != pokers[j]
      modifies this`dealPosition, this`dealt, set p | p in pokers
      ensures ok && Valid()
      ensures
        var players := if playerNumber < 0 then 0 else playerNumber;
        var n := Served(pokerNum - old(dealPosition), players);
        && DealtNext(Contents(), old(dealt), dealt, n)
        && (forall i :: 0 <= i < n ==> pokers[i][..] == dealt[|old(dealt)| + i])
        && (forall i :: n <= i < |pokers| ==> pokers[i][..] == old(pokers[i][..]))
        && (n == players <==> 5 * players <= pokerNum - old(dealPosition))
    {
      var i := 0;
      ghost var n := 0;
      assert dealt[..|dealt|] == dealt;
      while i < playerNumber
        invariant 0 <= i <= |pokers| && (if playerNumber < 0 then i == 0 else i <= playerNumber)
        invariant n == Served(pokerNum - old(dealPosition), i)
        invariant Valid() && DealtNext(Contents(), old(dealt), dealt, n) && n <= i
        invariant forall k :: 0 <= k < n ==> pokers[k][..] == dealt[|old(dealt)| + k]
        invariant forall k :: n <= k < |pokers| ==> pokers[k][..] == old(pokers[k][..])
      {
        ghost var before := dealt;
        var served := DealPoker(pokers[i]);
        if served {
          n := n + 1;
          assert before == dealt[..|before|];
          assert dealt[..|old(dealt)|] == before[..|old(dealt)|];
        }
        i := i + 1;
      }
      return true;
    }
  }
}
