/** Dou-niu hands: the search for the best type, and the verdict on a claimed type. */
module NiuHand {

  /** The values of the five cards, in the order of the hand; jack, queen and king are 11, 12 and 13. */
  type Hand = v: seq<int> | |v| == 5 && forall i :: 0 <= i < 5 ==> v[i] >= 0 witness [1, 1, 1, 1, 1]

  const MEI_NIU := 0
  const NIU_NIU := 10
  const SI_ZHA := 11
  const WU_HUA_NIU := 12
  const WU_XIAO_NIU := 13

  const NO_INDEX := -1

  /** Court cards count ten. */
  function Points(value: int): int {
    if value > 10 then 10 else value
  }

  function PointsOf(v: Hand): int {
    Points(v[0]) + Points(v[1]) + Points(v[2]) + Points(v[3]) + Points(v[4])
  }

  function Total(v: Hand): int {
    v[0] + v[1] + v[2] + v[3] + v[4]
  }

  predicate IsWuXiao(v: Hand) {
    (forall i :: 0 <= i < 5 ==> v[i] < 5) && Total(v) <= 10
  }

  predicate IsWuHua(v: Hand) {
    forall i :: 0 <= i < 5 ==> v[i] > 10
  }

  predicate EqualExcept(v: Hand, odd: int) {
    forall i, j :: 0 <= i < 5 && 0 <= j < 5 && i != odd && j != odd ==> v[i] == v[j]
  }

  /** Four cards of one value. */
  predicate IsSiZha(v: Hand) {
    exists odd :: 0 <= odd < 5 && EqualExcept(v, odd)
  }

  predicate IsTriple(v: Hand, i: int, j: int, k: int)
    requires 0 <= i < 5 && 0 <= j < 5 && 0 <= k < 5
  {
    (Points(v[i]) + Points(v[j]) + Points(v[k])) % 10 == 0
  }

  predicate HasTriple(v: Hand) {
    exists i, j, k :: 0 <= i < j < k < 5 && IsTriple(v, i, j, k)
  }

  function NiuType(v: Hand): int {
    if PointsOf(v) % 10 == 0 then NIU_NIU else PointsOf(v) % 10
  }

  /** The best type of a hand. */
  function BestType(v: Hand): int {
    if IsWuXiao(v) then WU_XIAO_NIU
    else if IsWuHua(v) then WU_HUA_NIU
    else if IsSiZha(v) then SI_ZHA
    else if HasTriple(v) then NiuType(v)
    else MEI_NIU
  }

  // ----- The verdict on a claim

  type Claim = c: seq<int> | |c| == 5 witness [0, 0, 0, 0, 0]

  predicate IsIndex(i: int) {
    0 <= i < 5
  }

  /** How many valid indices the claim begins with. */
  function CountFrom(c: Claim, k: nat): (n: nat)
    requires k <= 5
    ensures k <= n <= 5 && (forall i :: k <= i < n ==> IsIndex(c[i])) && (n < 5 ==> !IsIndex(c[n]))
    decreases 5 - k
  {
    if k < 5 && IsIndex(c[k]) then CountFrom(c, k + 1) else k
  }

  /** The type that a claim is granted. */
  function Granted(v: Hand, c: Claim): int {
    var n := CountFrom(c, 0);
    if n == 5 then (if IsWuXiao(v) then WU_XIAO_NIU else if IsWuHua(v) then WU_HUA_NIU else MEI_NIU)
    else if n == 4 then (if forall i :: 1 <= i < 4 ==> v[c[i]] == v[c[0]] then SI_ZHA else MEI_NIU)
    else if n == 3 then (if IsTriple(v, c[0], c[1], c[2]) then NiuType(v) else MEI_NIU)
    else MEI_NIU
  }

  predicate DuplicateFree(c: Claim) {
    forall i, j :: 0 <= i < j < CountFrom(c, 0) ==> c[i] != c[j]
  }

  /** How many cards are below five, with their sum, how many are court cards, and the points of the hand. */
  method CountCards(v: Hand) returns (small: int, smallSum: int, court: int, total: int)
    ensures small == 5 && smallSum <= 10 <==> IsWuXiao(v)
    ensures court == 5 <==> IsWuHua(v)
    ensures total == PointsOf(v)
  {
    small, smallSum, court, total := 0, 0, 0, 0;
    var i := 0;
    while i < 5
      invariant i <= 5 && small <= i && court <= i && total == PointsTo(v, i)
      invariant small == i <==> forall k :: 0 <= k < i ==> v[k] < 5
      invariant court == i <==> forall k :: 0 <= k < i ==> v[k] > 10
      invariant small == i ==> smallSum == SumTo(v, i)
    {
      total := total + Points(v[i]);
      if v[i] < 5 {
        small := small + 1;
        smallSum := smallSum + v[i];
      } else if v[i] > 10 {
        court := court + 1;
      }
      i := i + 1;
    }
  }

  method HasCow(poker: Hand, pokerIndex: Claim) returns (r: int)
    ensures r == Granted(poker, pokerIndex)
  {
    var count := 0;
    while count < 5 && pokerIndex[count] >= 0 && pokerIndex[count] < 5
      invariant count <= 5 && CountFrom(pokerIndex, 0) == CountFrom(pokerIndex, count)
    {
      count := count + 1;
    }
    if count == 5 {
      var small, sum, court, total := CountCards(poker);
      if small == 5 && sum <= 10 {
        return WU_XIAO_NIU;
      }
      if court == 5 {
        return WU_HUA_NIU;
      }
    } else if count == 4 {
      var i := 1;
      while i < 4
        invariant 1 <= i <= 4 && forall k :: 1 <= k < i ==> poker[pokerIndex[k]] == poker[pokerIndex[0]]
      {
        if poker[pokerIndex[i]] != poker[pokerIndex[0]] {
          return MEI_NIU;
        }
        i := i + 1;
      }
      return SI_ZHA;
    } else if count == 3 {
      var small, sum, court, totalSum := CountCards(poker);
      var nSum := Points(poker[pokerIndex[0]]) + Points(poker[pokerIndex[1]]) + Points(poker[pokerIndex[2]]);
      if nSum % 10 == 0 {
        var s := totalSum % 10;
        return if s == 0 then NIU_NIU else s;
      }
    }
    return MEI_NIU;
  }

  function SumTo(v: Hand, n: nat): int
    requires n <= 5
  {
    (if n > 0 then v[0] else 0) + (if n > 1 then v[1] else 0) + (if n > 2 then v[2] else 0)
    + (if n > 3 then v[3] else 0) + (if n > 4 then v[4] else 0)
  }

  function PointsTo(v: Hand, n: nat): int
    requires n <= 5
  {
    (if n > 0 then Points(v[0]) else 0) + (if n > 1 then Points(v[1]) else 0) + (if n > 2 then Points(v[2]) else 0)
    + (if n > 3 then Points(v[3]) else 0) + (if n > 4 then Points(v[4]) else 0)
  }

  // ----- No claim beats the best type

  lemma FourEqual(v: Hand, a: int, b: int, c: int, d: int) returns (odd: int)
    requires IsIndex(a) && IsIndex(b) && IsIndex(c) && IsIndex(d)
    requires a != b && a != c && a != d && b != c && b != d && c != d
    requires v[a] == v[b] == v[c] == v[d]
    ensures 0 <= odd < 5 && EqualExcept(v, odd)
  {
    odd := 10 - a - b - c - d;
  }

  lemma TripleInOrder(v: Hand, a: int, b: int, c: int)
    requires IsIndex(a) && IsIndex(b) && IsIndex(c) && a != b && a != c && b != c && IsTriple(v, a, b, c)
    ensures HasTriple(v)
  {
    var lo := if a < b then (if a < c then a else c) else (if b < c then b else c);
    var hi := if a > b then (if a > c then a else c) else (if b > c then b else c);
    assert IsTriple(v, lo, a + b + c - lo - hi, hi);
  }

  /** A claim that names no card twice is granted at most the best type. */
  lemma NoClaimBeatsBest(v: Hand, c: Claim)
    requires DuplicateFree(c)
    ensures Granted(v, c) <= BestType(v)
  {
    var n := CountFrom(c, 0);
    if n == 4 && Granted(v, c) == SI_ZHA {
      var odd := FourEqual(v, c[0], c[1], c[2], c[3]);
    } else if n == 3 && IsTriple(v, c[0], c[1], c[2]) {
      TripleInOrder(v, c[0], c[1], c[2]);
    }
  }

  // ----- What the types mean

  /** `w` is what the cards count: ten for jack, queen and king, and otherwise their value. */
  predicate Counts(v: Hand, w: seq<int>) {
    |w| == 5 && forall i :: 0 <= i < 5 ==> w[i] == if v[i] > 10 then 10 else v[i]
  }

  /**
   * A hand without a special type is worth nothing exactly when no three of its cards count a multiple of ten; otherwise
   * it is worth the last digit of what all five count, with ten for zero.
   */
  lemma BestTypeMeans(v: Hand, w: seq<int>)
    requires Counts(v, w) && !IsWuXiao(v) && !IsWuHua(v) && !IsSiZha(v)
    ensures BestType(v) == 0 <==> forall i, j, k :: 0 <= i < j < k < 5 ==> (w[i] + w[j] + w[k]) % 10 != 0
    ensures BestType(v) != 0 ==> 1 <= BestType(v) <= 10 && BestType(v) % 10 == (w[0] + w[1] + w[2] + w[3] + w[4]) % 10
  {
    HasTripleMeans(v, w);
    NiuTypeMeans(v, w);
  }

  lemma TripleMeans(v: Hand, w: seq<int>, i: int, j: int, k: int)
    requires Counts(v, w) && 0 <= i < 5 && 0 <= j < 5 && 0 <= k < 5
    ensures IsTriple(v, i, j, k) <==> (w[i] + w[j] + w[k]) % 10 == 0
  {
  }

  lemma HasTripleMeans(v: Hand, w: seq<int>)
    requires Counts(v, w)
    ensures !HasTriple(v) <==> forall i, j, k :: 0 <= i < j < k < 5 ==> (w[i] + w[j] + w[k]) % 10 != 0
  {
    if HasTriple(v) {
      var i, j, k :| 0 <= i < j < k < 5 && IsTriple(v, i, j, k);
      TripleMeans(v, w, i, j, k);
    } else {
      forall i, j, k | 0 <= i < j < k < 5 ensures (w[i] + w[j] + w[k]) % 10 != 0 {
        TripleMeans(v, w, i, j, k);
      }
    }
  }

  lemma NiuTypeMeans(v: Hand, w: seq<int>)
    requires Counts(v, w)
    ensures 1 <= NiuType(v) <= 10 && NiuType(v) % 10 == (w[0] + w[1] + w[2] + w[3] + w[4]) % 10
  {
    assert PointsOf(v) == w[0] + w[1] + w[2] + w[3] + w[4];
  }

  /** A claim of three places is granted the same, on the three cards it names. */
  lemma GrantedThree(v: Hand, c: Claim, w: seq<int>)
    requires Counts(v, w) && IsIndex(c[0]) && IsIndex(c[1]) && IsIndex(c[2]) && !IsIndex(c[3])
    ensures Granted(v, c) == 0 <==> (w[c[0]] + w[c[1]] + w[c[2]]) % 10 != 0
    ensures Granted(v, c) != 0 ==> 1 <= Granted(v, c) <= 10 && Granted(v, c) % 10 == (w[0] + w[1] + w[2] + w[3] + w[4]) % 10
  {
    assert CountFrom(c, 3) == 3;
    assert CountFrom(c, 1) == 3;
    TripleMeans(v, w, c[0], c[1], c[2]);
    NiuTypeMeans(v, w);
  }

  /** King, ten and queen make thirty, and with two fives forty: the best that a triple can be worth. */
  lemma CourtCardsExample()
    ensures BestType([13, 10, 12, 5, 5]) == NIU_NIU
  {
    var v: Hand := [13, 10, 12, 5, 5];
    assert v[1] == 10 && v[3] == 5;
    forall odd | 0 <= odd < 5 ensures !EqualExcept(v, odd) {
      assert v[0] != v[1] && v[2] != v[3];
    }
    assert IsTriple(v, 0, 1, 2);
  }

  // ----- Which claims can be granted too much

  /** Cards as they are dealt: ace to king. */
  predicate IsDealt(v: Hand) {
    forall i :: 0 <= i < 5 ==> 1 <= v[i] <= 13
  }

  predicate AmongFour(c: Claim, place: int) {
    c[0] == place || c[1] == place || c[2] == place || c[3] == place
  }

  /** Sixes where the four indices point, other cards elsewhere. */
  function SixesAt(c: Claim): Hand {
    [if AmongFour(c, 0) then 6 else 1, if AmongFour(c, 1) then 6 else 2, if AmongFour(c, 2) then 6 else 3,
     if AmongFour(c, 3) then 6 else 4, if AmongFour(c, 4) then 6 else 5]
  }

  /** Four indices with a repeat leave two places out. */
  lemma TwoLeftOut(c: Claim) returns (p: int, q: int)
    requires CountFrom(c, 0) == 4 && !DuplicateFree(c)
    ensures 0 <= p < q < 5 && !AmongFour(c, p) && !AmongFour(c, q)
  {
    assert c[0] == c[1] || c[0] == c[2] || c[0] == c[3] || c[1] == c[2] || c[1] == c[3] || c[2] == c[3];
    p := if !AmongFour(c, 0) then 0 else if !AmongFour(c, 1) then 1 else if !AmongFour(c, 2) then 2 else 3;
    q := if !AmongFour(c, 4) then 4 else if !AmongFour(c, 3) then 3 else if !AmongFour(c, 2) then 2 else 1;
  }

  /** Four indices with a repeat are granted four of a kind on a hand of lower type. */
  lemma FourRepeatedBeat(c: Claim)
    requires CountFrom(c, 0) == 4 && !DuplicateFree(c)
    ensures IsDealt(SixesAt(c)) && Granted(SixesAt(c), c) == SI_ZHA > BestType(SixesAt(c))
  {
    var v := SixesAt(c);
    var p, q := TwoLeftOut(c);
    var r := c[0];
    assert v[r] == 6 && v[p] == p + 1 && v[q] == q + 1;
    forall odd | 0 <= odd < 5 ensures !EqualExcept(v, odd) {
      var x, y := if p == odd then q else p, if r == odd then q else r;
      assert v[x] != v[y] || odd == q;
    }
    assert forall i :: 1 <= i < 4 ==> v[c[i]] == 6;
  }

  /** The place that three indices with a repeat name twice, and another one, the one they name once if there is one. */
  function Twice(c: Claim): int {
    if c[0] == c[1] || c[0] == c[2] then c[0] else c[1]
  }

  function Once(c: Claim): int {
    if c[0] != Twice(c) then c[0] else if c[1] != Twice(c) then c[1] else if c[2] != Twice(c) then c[2]
    else if c[0] == 0 then 1 else 0
  }

  /** A hand without any type on which the three cards named sum up to a multiple of ten. */
  function FiveAndTen(c: Claim): (v: Hand) {
    var five, ten :=
      if c[0] == c[1] == c[2] then Once(c) else Twice(c), if c[0] == c[1] == c[2] then Twice(c) else Once(c);
    seq(5, i => if i == five then 5 else if i == ten then 10 else 1)
  }

  /** Three indices with a repeat are granted a type on a hand that has none. */
  lemma ThreeRepeatedBeat(c: Claim)
    requires CountFrom(c, 0) == 3 && !DuplicateFree(c)
    ensures IsDealt(FiveAndTen(c)) && Granted(FiveAndTen(c), c) == 8 > BestType(FiveAndTen(c))
  {
    var v := FiveAndTen(c);
    assert c[0] == c[1] || c[0] == c[2] || c[1] == c[2];
    var same := c[0] == c[1] == c[2];
    OneFiveOneTen(v, if same then Once(c) else Twice(c), if same then Twice(c) else Once(c));
  }

  /** A five, a ten and three aces are worth nothing. */
  lemma OneFiveOneTen(v: Hand, five: int, ten: int)
    requires 0 <= five < 5 && 0 <= ten < 5 && five != ten
    requires forall i :: 0 <= i < 5 ==> v[i] == if i == five then 5 else if i == ten then 10 else 1
    ensures BestType(v) == MEI_NIU && PointsOf(v) == 18
  {
    var ace := if five != 0 && ten != 0 then 0 else if five != 1 && ten != 1 then 1 else 2;
    assert v[five] == 5 && v[ten] == 10 && v[ace] == 1;
    forall odd | 0 <= odd < 5 ensures !EqualExcept(v, odd) {
      assert odd == five || odd == ten || v[five] != v[ten];
    }
    forall i, j, k | 0 <= i < j < k < 5 ensures !IsTriple(v, i, j, k) {
      assert v[i] != 10 || v[j] != 10;
    }
  }

  /** A claim is never granted more than a hand is worth exactly when it is not one of three or four indices with a repeat. */
  lemma ClaimIsSafeIff(c: Claim)
    ensures (forall v: Hand :: Granted(v, c) <= BestType(v)) <==>
      !((CountFrom(c, 0) == 3 || CountFrom(c, 0) == 4) && !DuplicateFree(c))
  {
    if (CountFrom(c, 0) == 3 || CountFrom(c, 0) == 4) && !DuplicateFree(c) {
      if CountFrom(c, 0) == 4 {
        FourRepeatedBeat(c);
      } else {
        ThreeRepeatedBeat(c);
      }
    } else {
      forall v: Hand ensures Granted(v, c) <= BestType(v) {
        if DuplicateFree(c) {
          NoClaimBeatsBest(v, c);
        }
      }
    }
  }

  /** Naming one card four times is granted a four of a kind. */
  lemma RepeatedIndexIsGranted()
    ensures
      var v: Hand, c: Claim := [1, 2, 3, 6, 12], [0, 0, 0, 0, NO_INDEX];
      !DuplicateFree(c) && Granted(v, c) == SI_ZHA > BestType(v)
  {
    var v: Hand, c: Claim := [1, 2, 3, 6, 12], [0, 0, 0, 0, NO_INDEX];
    assert CountFrom(c, 4) == 4;
    assert CountFrom(c, 2) == 4;
    assert c[0] == c[1];
    forall odd | 0 <= odd < 5 ensures !EqualExcept(v, odd) {
      assert v[0] != v[1] && v[2] != v[3];
    }
  }

  // ----- The search

  /** A card's value with its place in the hand. */
  datatype Placed = Placed(value: int, index: int)

  /** The first `n` cards of the hand, by increasing value, in some order among equals. */
  ghost predicate IsSorting(v: Hand, n: nat, p: seq<Placed>) {
    && |p| == n
    && (forall k :: 0 <= k < n ==> 0 <= p[k].index < n && n <= 5 && p[k].value == v[p[k].index])
    && (forall j, k :: 0 <= j < k < n ==> p[j].index != p[k].index && p[j].value <= p[k].value)
  }

  /** A sort by value; which of two equal cards comes first does not matter to what follows. */
  method SortPokers(v: Hand) returns (p: seq<Placed>)
    ensures IsSorting(v, 5, p)
  {
    p := [];
    for i := 0 to 5
      invariant IsSorting(v, i, p)
    {
      var at := 0;
      while at < |p| && p[at].value <= v[i]
        invariant at <= |p| && forall k :: 0 <= k < at ==> p[k].value <= v[i]
      {
        at := at + 1;
      }
      p := p[..at] + [Placed(v[i], i)] + p[at..];
    }
  }

  /** Five different places are all the places. */
  lemma AllPlaced(v: Hand, p: seq<Placed>, q: int)
    requires IsSorting(v, 5, p) && 0 <= q < 5
    ensures q == p[0].index || q == p[1].index || q == p[2].index || q == p[3].index || q == p[4].index
  {
  }

  /** In sorted order, a four of a kind is the first four cards or the last four. */
  lemma SortedSiZha(v: Hand, p: seq<Placed>)
    requires IsSorting(v, 5, p)
    ensures IsSiZha(v) <==> p[0].value == p[3].value || p[1].value == p[4].value
  {
    if p[0].value == p[3].value {
      FourPlaced(v, p, 4);
    } else if p[1].value == p[4].value {
      FourPlaced(v, p, 0);
    }
  }

  lemma FourPlaced(v: Hand, p: seq<Placed>, k: int)
    requires IsSorting(v, 5, p) && (k == 0 || k == 4)
    requires forall i, j :: 0 <= i < 5 && 0 <= j < 5 && i != k && j != k ==> p[i].value == p[j].value
    ensures EqualExcept(v, p[k].index)
  {
    forall i, j | 0 <= i < 5 && 0 <= j < 5 && i != p[k].index && j != p[k].index ensures v[i] == v[j] {
      AllPlaced(v, p, i);
      AllPlaced(v, p, j);
    }
  }

  /** The places of the cards, before any of them has been reported. */
  ghost predicate IsPreset(niu: array<int>, other: array<int>)
    reads niu, other
  {
    && niu.Length == 5 && other.Length == 2 && niu != other
    && (forall i :: 0 <= i < 5 ==> niu[i] == NO_INDEX)
  }

  /**
   * Looks for four equal cards among the sorted ones, reporting places as it goes; `found` says whether there are four.
   */
  method FindSiZha(v: Hand, p: seq<Placed>, niu: array<int>, other: array<int>) returns (found: bool)
    requires IsSorting(v, 5, p) && IsPreset(niu, other)
    modifies niu, other
    ensures found <==> IsSiZha(v)
    ensures niu[4] == NO_INDEX && (!found ==> niu[3] == NO_INDEX)
    ensures found ==> Granted(v, niu[..]) == SI_ZHA && DuplicateFree(niu[..])
  {
    SortedSiZha(v, p);
    ghost var start := 0;
    var count := 0;
    var i := 1;
    while i < 5
      invariant 1 <= i <= 5 && 0 <= start <= 1 && count == i - 1 - start && 0 <= count < 3
      invariant start == 1 ==> p[0].value != p[1].value
      invariant forall k :: start <= k < i ==> p[k].value == p[start].value
      invariant forall k :: 0 <= k < count ==> niu[k] == p[start + k].index
      invariant niu[3] == NO_INDEX && niu[4] == NO_INDEX
    {
      if p[i - 1].value == p[i].value {
        niu[count] := p[i - 1].index;
        count := count + 1;
        if count == 3 {
          niu[count] := p[i].index;
          FourReported(v, p, start, niu[..]);
          return true;
        }
      } else {
        if i >= 2 {
          return false;
        }
        count := 0;
        start := 1;
        other[0] := p[i - 1].index;
      }
      i := i + 1;
    }
    return false;
  }

  lemma FourReported(v: Hand, p: seq<Placed>, start: nat, c: Claim)
    requires IsSorting(v, 5, p) && start <= 1 && p[start].value == p[start + 3].value
    requires forall k :: 0 <= k < 4 ==> c[k] == p[start + k].index
    requires c[4] == NO_INDEX
    ensures Granted(v, c) == SI_ZHA && DuplicateFree(c)
  {
    assert CountFrom(c, 4) == 4;
    assert CountFrom(c, 2) == 4;
  }

  ghost predicate NoTripleBefore(v: Hand, i: int, j: int, k: int) {
    forall a, b, c :: 0 <= a < b < c < 5 && (a < i || (a == i && (b < j || (b == j && c < k)))) ==> !IsTriple(v, a, b, c)
  }

  /** The first three cards, in the order of the loops, whose points make tens; five if there are none. */
  method FindTriple(v: Hand) returns (i: int, j: int, k: int)
    ensures i < 5 ==> 0 <= i < j < k < 5 && IsTriple(v, i, j, k)
    ensures i >= 5 ==> !HasTriple(v)
  {
    i := 0;
    while i < 5
      invariant 0 <= i <= 5 && NoTripleBefore(v, i, 0, 0)
    {
      j := i + 1;
      while j < 5
        invariant i < j <= 5 && NoTripleBefore(v, i, j, 0)
      {
        k := j + 1;
        while k < 5
          invariant j < k <= 5 && NoTripleBefore(v, i, j, k)
        {
          if (Points(v[i]) + Points(v[j]) + Points(v[k])) % 10 == 0 {
            return;
          }
          k := k + 1;
        }
        j := j + 1;
      }
      i := i + 1;
    }
    j, k := 5, 5;
  }

  /** The two places that the triple leaves. */
  method ReportOthers(i: int, j: int, k: int, niu: array<int>, other: array<int>)
    requires 0 <= i < j < k < 5 && niu.Length == 5 && other.Length == 2 && niu != other
    requires niu[0] == i && niu[1] == j && niu[2] == k
    modifies other
    ensures 0 <= other[0] < other[1] < 5
    ensures forall n :: 0 <= n < 3 ==> other[0] != niu[n] && other[1] != niu[n]
  {
    var at, m := 0, 0;
    while m < 5
      invariant 0 <= m <= 5 && 0 <= at < 2
      invariant m == at + (if i < m then 1 else 0) + (if j < m then 1 else 0) + (if k < m then 1 else 0)
      invariant at > 0 ==> 0 <= other[0] < m && other[0] != i && other[0] != j && other[0] != k
    {
      var n := 0;
      while n < 3 && m != niu[n]
        invariant n <= 3 && forall q :: 0 <= q < n ==> m != niu[q]
      {
        n := n + 1;
      }
      if n >= 3 {
        other[at] := m;
        at := at + 1;
        if at >= 2 {
          return;
        }
      }
      m := m + 1;
    }
  }

  /**
   * The type found is the best of the hand, no claim that names a card once is granted more, and the places reported
   * are themselves a claim that is granted that type.
   */
  method FindCow(v: Hand, niu: array<int>, other: array<int>) returns (r: int)
    requires IsPreset(niu, other)
    modifies niu, other
    ensures r == BestType(v) == Granted(v, niu[..]) && DuplicateFree(niu[..])
    ensures forall c: Claim :: DuplicateFree(c) ==> Granted(v, c) <= r
  {
    forall c: Claim | DuplicateFree(c) ensures Granted(v, c) <= BestType(v) {
      NoClaimBeatsBest(v, c);
    }
    var small, smallSum, court, total := CountCards(v);
    if (small == 5 && smallSum <= 10) || court == 5 {
      niu[0], niu[1], niu[2], niu[3], niu[4] := 0, 1, 2, 3, 4;
      AllFiveClaimed(v, niu[..]);
      return if small == 5 && smallSum <= 10 then WU_XIAO_NIU else WU_HUA_NIU;
    }
    var sorted := SortPokers(v);
    var found := FindSiZha(v, sorted, niu, other);
    if found {
      return SI_ZHA;
    }
    var i, j, k := FindTriple(v);
    if i < 5 {
      niu[0], niu[1], niu[2] := i, j, k;
      ReportOthers(i, j, k, niu, other);
      TripleClaimed(v, niu[..]);
      var kind := total % 10;
      return if kind == 0 then NIU_NIU else kind;
    }
    forall n | 0 <= n < 5 { niu[n] := NO_INDEX; }
    assert CountFrom(niu[..], 0) == 0;
    return MEI_NIU;
  }

  lemma AllFiveClaimed(v: Hand, c: Claim)
    requires forall i :: 0 <= i < 5 ==> c[i] == i
    requires IsWuXiao(v) || IsWuHua(v)
    ensures Granted(v, c) == BestType(v) && DuplicateFree(c)
  {
    assert CountFrom(c, 4) == 5;
    assert CountFrom(c, 2) == 5;
  }

  lemma TripleClaimed(v: Hand, c: Claim)
    requires 0 <= c[0] < c[1] < c[2] < 5 && c[3] == NO_INDEX && IsTriple(v, c[0], c[1], c[2])
    requires !IsWuXiao(v) && !IsWuHua(v) && !IsSiZha(v)
    ensures Granted(v, c) == BestType(v) && DuplicateFree(c)
  {
    assert CountFrom(c, 3) == 3;
    assert CountFrom(c, 1) == 3;
  }
}
