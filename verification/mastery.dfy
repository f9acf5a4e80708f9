/** Mastery statistics derived from a user's attempt log for one set.

    `Aggregate` is the per-set body of the getAssignedSets query: it groups the
    attempts by card into a map of counters, then folds the counters into set
    totals. `FlashcardList` is the per-card computation of the getFlashcards query.
    Both are specified against set-based reference definitions (`ProgressOf`,
    `StatsOf`), whose properties are proved below. */
module Mastery {
  import opened Wrappers
  import opened Records

  /** The "n+1" rule: a card is mastered once its correct answers exceed its
      incorrect answers by at least one. */
  datatype CardStats = CardStats(correct: nat, incorrect: nat)

  predicate Mastered(s: CardStats) {
    s.correct >= s.incorrect + 1
  }

  /** What an attempt is counted under: its card and correctness, or its correctness alone. */
  datatype Tag = OnCard(card: CardId, correct: bool) | AnyCard(correct: bool)

  predicate Tagged(a: Attempt, t: Tag) {
    a.correct == t.correct && (t.OnCard? ==> a.cardId == t.card)
  }

  /** Number of attempts in `p` that carry tag `t`. */
  function Count(p: seq<Attempt>, t: Tag): (n: nat)
    ensures n <= |p|
  {
    if p == [] then 0
    else Count(p[..|p| - 1], t) + (if Tagged(p[|p| - 1], t) then 1 else 0)
  }

  /** The cards that have at least one attempt in `p`. */
  function CardIds(p: seq<Attempt>): set<CardId> {
    set a | a in p :: a.cardId
  }

  /** Reference definition of one card's counters. */
  function StatsOf(p: seq<Attempt>, c: CardId): CardStats {
    CardStats(Count(p, OnCard(c, true)), Count(p, OnCard(c, false)))
  }

  function MasteredIds(p: seq<Attempt>): set<CardId> {
    set c | c in CardIds(p) && Mastered(StatsOf(p, c))
  }

  /** `mastered / total * 100`, guarded against an empty set; exact rational arithmetic. */
  function Percent(mastered: nat, total: nat): (r: real)
    ensures total == 0 ==> r == 0.0
    ensures mastered <= total ==> 0.0 <= r <= 100.0
    ensures total > 0 && mastered == total ==> r == 100.0
  {
    if total > 0 then (mastered as real / total as real) * 100.0 else 0.0
  }

  /** The set-level figures of getAssignedSets. */
  datatype SetProgress = SetProgress(
    totalCards: nat,
    reviewedCards: nat,
    correctCards: nat,
    incorrectCards: nat,
    masteredCards: nat,
    progress: real)

  /** Reference definition of the set-level figures, stated on sets and counts
      only, so that it does not depend on the order in which attempts are visited. */
  function ProgressOf(p: seq<Attempt>, totalCards: nat): SetProgress {
    SetProgress(
      totalCards,
      |CardIds(p)|,
      Count(p, AnyCard(true)),
      Count(p, AnyCard(false)),
      |MasteredIds(p)|,
      Percent(|MasteredIds(p)|, totalCards))
  }

  predicate Distinct(ks: seq<CardId>) {
    forall i, j :: 0 <= i < j < |ks| ==> ks[i] != ks[j]
  }

  /** Sum over the cards `ks` of the counter for correctness `b`. */
  function SumOver(ks: seq<CardId>, p: seq<Attempt>, b: bool): nat {
    if ks == [] then 0
    else SumOver(ks[..|ks| - 1], p, b) + Count(p, OnCard(ks[|ks| - 1], b))
  }

  function MasteredAmong(ks: seq<CardId>, p: seq<Attempt>): set<CardId> {
    set k | k in ks && Mastered(StatsOf(p, k))
  }

  /** The attempted card ids, each listed once at its first attempt, in log order. */
  function FirstSeen(p: seq<Attempt>): (r: seq<CardId>)
    ensures Distinct(r)
    ensures forall k :: k in r <==> k in CardIds(p)
  {
    if p == [] then []
    else
      var init, last := p[..|p| - 1], p[|p| - 1];
      assert p == init + [last];
      var seen := FirstSeen(init);
      if last.cardId in seen then seen else seen + [last.cardId]
  }

  /** The first loop of getAssignedSets' per-set statistics: a map of counters
      keyed by card, filled in attempt order. `keys` lists the map's keys in
      insertion order, the order in which a JavaScript `Map` is iterated. */
  method GroupByCard(attempts: seq<Attempt>) returns (keys: seq<CardId>, stats: map<CardId, CardStats>)
    ensures keys == FirstSeen(attempts)
    ensures Distinct(keys)
    ensures forall k :: k in stats <==> k in keys
    ensures stats.Keys == CardIds(attempts)
    ensures forall k :: k in stats ==> stats[k] == StatsOf(attempts, k)
  {
    stats := map[];
    keys := [];
    for i := 0 to |attempts|
      invariant keys == FirstSeen(attempts[..i])
      invariant Distinct(keys)
      invariant forall k :: k in stats <==> k in keys
      invariant stats.Keys == CardIds(attempts[..i])
      invariant forall k :: k in stats ==> stats[k] == StatsOf(attempts[..i], k)
    {
      var a := attempts[i];
      var prefix := attempts[..i];
      assert attempts[..i + 1] == prefix + [a];
      CardIdsSnoc(prefix, a);
      if a.cardId !in stats {
        CountAbsent(prefix, a.cardId, true);
        CountAbsent(prefix, a.cardId, false);
        stats := stats[a.cardId := CardStats(0, 0)];
        keys := keys + [a.cardId];
      }
      var s := stats[a.cardId];
      if a.correct {
        stats := stats[a.cardId := s.(correct := s.correct + 1)];
      } else {
        stats := stats[a.cardId := s.(incorrect := s.incorrect + 1)];
      }
      forall k | k in stats ensures stats[k] == StatsOf(prefix + [a], k) {
        StatsSnoc(prefix, a, k);
      }
    }
    assert attempts[..|attempts|] == attempts;
  }

  /** The per-set statistics of getAssignedSets: group the attempts by card,
      then fold the counters into set totals, applying the mastery rule. */
  method Aggregate(attempts: seq<Attempt>, totalCards: nat) returns (r: SetProgress)
    ensures r == ProgressOf(attempts, totalCards)
  {
    var keys, stats := GroupByCard(attempts);
    var masteredCount, totalCorrect, totalIncorrect := 0, 0, 0;
    for j := 0 to |keys|
      invariant totalCorrect == SumOver(keys[..j], attempts, true)
      invariant totalIncorrect == SumOver(keys[..j], attempts, false)
      invariant masteredCount == |MasteredAmong(keys[..j], attempts)|
    {
      var k := keys[j];
      SumOverStep(keys, j, attempts, true);
      SumOverStep(keys, j, attempts, false);
      MasteredAmongStep(keys, j, attempts);
      totalCorrect := totalCorrect + stats[k].correct;
      totalIncorrect := totalIncorrect + stats[k].incorrect;
      if Mastered(stats[k]) {
        masteredCount := masteredCount + 1;
      }
    }
    assert keys[..|keys|] == keys;
    assert CardIds(attempts) <= set k | k in keys;
    SumOverAll(keys, attempts, true);
    SumOverAll(keys, attempts, false);
    MasteredAmongAll(keys, attempts);
    var reviewedCount := |stats.Keys|;
    r := SetProgress(totalCards, reviewedCount, totalCorrect, totalIncorrect, masteredCount,
                     Percent(masteredCount, totalCards));
  }

  lemma SumOverStep(ks: seq<CardId>, j: int, p: seq<Attempt>, b: bool)
    requires 0 <= j < |ks|
    ensures SumOver(ks[..j + 1], p, b) == SumOver(ks[..j], p, b) + Count(p, OnCard(ks[j], b))
  {
    assert ks[..j + 1][..j] == ks[..j];
  }

  lemma MasteredAmongStep(ks: seq<CardId>, j: int, p: seq<Attempt>)
    requires 0 <= j < |ks| && Distinct(ks)
    ensures |MasteredAmong(ks[..j + 1], p)| ==
            |MasteredAmong(ks[..j], p)| + (if Mastered(StatsOf(p, ks[j])) then 1 else 0)
  {
    var k := ks[j];
    assert ks[..j + 1] == ks[..j] + [k];
    assert k !in ks[..j];
    if Mastered(StatsOf(p, k)) {
      assert MasteredAmong(ks[..j + 1], p) == MasteredAmong(ks[..j], p) + {k};
    } else {
      assert MasteredAmong(ks[..j + 1], p) == MasteredAmong(ks[..j], p);
    }
  }

  lemma MasteredAmongAll(ks: seq<CardId>, p: seq<Attempt>)
    requires forall k :: k in ks <==> k in CardIds(p)
    ensures MasteredAmong(ks, p) == MasteredIds(p)
  {
  }

  lemma CardIdsSnoc(p: seq<Attempt>, a: Attempt)
    ensures CardIds(p + [a]) == CardIds(p) + {a.cardId}
  {
    assert forall x :: x in p + [a] <==> x in p || x == a;
  }

  lemma {:induction false} CountAbsent(p: seq<Attempt>, c: CardId, b: bool)
    requires c !in CardIds(p)
    ensures Count(p, OnCard(c, b)) == 0
  {
    if p != [] {
      assert p == p[..|p| - 1] + [p[|p| - 1]];
      CardIdsSnoc(p[..|p| - 1], p[|p| - 1]);
      CountAbsent(p[..|p| - 1], c, b);
    }
  }

  lemma {:induction false} SumOverEmpty(ks: seq<CardId>, b: bool)
    ensures SumOver(ks, [], b) == 0
  {
    if ks != [] {
      SumOverEmpty(ks[..|ks| - 1], b);
    }
  }

  /** Appending one attempt adds one to the sum exactly when its card is among `ks`. */
  lemma {:induction false} SumOverSnoc(ks: seq<CardId>, p: seq<Attempt>, a: Attempt, b: bool)
    requires Distinct(ks)
    ensures SumOver(ks, p + [a], b) == SumOver(ks, p, b) + (if a.cardId in ks && a.correct == b then 1 else 0)
  {
    assert (p + [a])[..|p + [a]| - 1] == p;
    if ks != [] {
      var init := ks[..|ks| - 1];
      assert Distinct(init);
      SumOverSnoc(init, p, a, b);
      assert ks == init + [ks[|ks| - 1]];
      assert a.cardId in ks <==> a.cardId in init || a.cardId == ks[|ks| - 1];
      assert ks[|ks| - 1] !in init;
    }
  }

  /** Summing the per-card counters over every reviewed card gives the total count. */
  lemma {:induction false} SumOverAll(ks: seq<CardId>, p: seq<Attempt>, b: bool)
    requires Distinct(ks)
    requires CardIds(p) <= set k | k in ks
    ensures SumOver(ks, p, b) == Count(p, AnyCard(b))
  {
    if p == [] {
      SumOverEmpty(ks, b);
    } else {
      var init, a := p[..|p| - 1], p[|p| - 1];
      assert p == init + [a];
      CardIdsSnoc(init, a);
      SumOverAll(ks, init, b);
      SumOverSnoc(ks, init, a, b);
      assert a.cardId in ks;
    }
  }

  lemma {:induction false} CountAppend(p: seq<Attempt>, q: seq<Attempt>, t: Tag)
    ensures Count(p + q, t) == Count(p, t) + Count(q, t)
  {
    if q == [] {
      assert p + q == p;
    } else {
      CountAppend(p, q[..|q| - 1], t);
      assert (p + q)[..|p + q| - 1] == p + q[..|q| - 1];
    }
  }

  /** One more attempt raises one counter of its own card and no other. */
  lemma StatsSnoc(p: seq<Attempt>, a: Attempt, c: CardId)
    ensures StatsOf(p + [a], c) ==
            if a.cardId != c then StatsOf(p, c)
            else if a.correct then CardStats(StatsOf(p, c).correct + 1, StatsOf(p, c).incorrect)
            else CardStats(StatsOf(p, c).correct, StatsOf(p, c).incorrect + 1)
  {
    assert (p + [a])[..|p + [a]| - 1] == p;
  }

  /** Counters depend only on which attempts there are, not on their order. */
  lemma {:induction false} CountPermutation(p1: seq<Attempt>, p2: seq<Attempt>, t: Tag)
    requires multiset(p1) == multiset(p2)
    ensures Count(p1, t) == Count(p2, t)
  {
    if p1 == [] {
      assert |p2| == |multiset(p2)| == 0;
    } else {
      var r1, x := p1[..|p1| - 1], p1[|p1| - 1];
      assert p1 == r1 + [x];
      assert x in multiset(p2);
      var j :| 0 <= j < |p2| && p2[j] == x;
      var r2 := p2[..j] + p2[j + 1..];
      assert p2 == p2[..j] + [x] + p2[j + 1..];
      assert multiset(p1) == multiset(r1) + multiset{x};
      assert multiset(p2) == multiset(p2[..j]) + multiset{x} + multiset(p2[j + 1..]);
      assert multiset(r2) == multiset(p2[..j]) + multiset(p2[j + 1..]);
      assert multiset(r1) == multiset(p1) - multiset{x};
      assert multiset(r2) == multiset(p2) - multiset{x};
      CountPermutation(r1, r2, t);
      CountAppend(r1, [x], t);
      CountAppend(p2[..j], [x], t);
      CountAppend(p2[..j] + [x], p2[j + 1..], t);
      CountAppend(p2[..j], p2[j + 1..], t);
    }
  }

  /** The set totals are the same whatever order the attempts are visited in. */
  lemma OrderIndependent(p1: seq<Attempt>, p2: seq<Attempt>, totalCards: nat)
    requires multiset(p1) == multiset(p2)
    ensures ProgressOf(p1, totalCards) == ProgressOf(p2, totalCards)
  {
    forall a ensures a in p1 <==> a in p2 {
      assert a in p1 <==> a in multiset(p1);
      assert a in p2 <==> a in multiset(p2);
    }
    assert CardIds(p1) == CardIds(p2);
    forall c, b ensures Count(p1, OnCard(c, b)) == Count(p2, OnCard(c, b)) {
      CountPermutation(p1, p2, OnCard(c, b));
    }
    assert MasteredIds(p1) == MasteredIds(p2);
    CountPermutation(p1, p2, AnyCard(true));
    CountPermutation(p1, p2, AnyCard(false));
  }

  /** Every attempt is counted as correct or as incorrect, never both. */
  lemma {:induction false} TotalsPartitionAttempts(p: seq<Attempt>)
    ensures Count(p, AnyCard(true)) + Count(p, AnyCard(false)) == |p|
  {
    if p != [] {
      TotalsPartitionAttempts(p[..|p| - 1]);
    }
  }

  /** The attempts on card `c`, in log order. */
  function AttemptsOn(p: seq<Attempt>, c: CardId): (q: seq<Attempt>)
    ensures forall a :: a in q <==> a in p && a.cardId == c
  {
    if p == [] then []
    else AttemptsOn(p[..|p| - 1], c) + (if p[|p| - 1].cardId == c then [p[|p| - 1]] else [])
  }

  lemma {:induction false} CountOn(p: seq<Attempt>, c: CardId, b: bool)
    ensures Count(AttemptsOn(p, c), AnyCard(b)) == Count(p, OnCard(c, b))
  {
    if p != [] {
      var init, a := p[..|p| - 1], p[|p| - 1];
      CountOn(init, c, b);
      CountAppend(AttemptsOn(init, c), if a.cardId == c then [a] else [], AnyCard(b));
      assert [a][..0] == [];
    }
  }

  /** For each card, its two counters add up to its number of attempts. */
  lemma CountsPartitionAttempts(p: seq<Attempt>, c: CardId)
    ensures StatsOf(p, c).correct + StatsOf(p, c).incorrect == |AttemptsOn(p, c)|
  {
    CountOn(p, c, true);
    CountOn(p, c, false);
    TotalsPartitionAttempts(AttemptsOn(p, c));
  }

  /** `i` is the position of the most recent attempt on card `c`. */
  predicate IsLastAttemptOn(p: seq<Attempt>, c: CardId, i: int) {
    0 <= i < |p| && p[i].cardId == c && forall j :: i < j < |p| ==> p[j].cardId != c
  }

  /** The position of the most recent attempt on card `c`, or -1 when there is none. */
  function LastIndexOn(p: seq<Attempt>, c: CardId): (i: int)
    ensures -1 <= i < |p|
  {
    if p == [] then -1
    else if p[|p| - 1].cardId == c then |p| - 1
    else LastIndexOn(p[..|p| - 1], c)
  }

  lemma {:induction false} LastIndexOnMeaning(p: seq<Attempt>, c: CardId)
    requires AttemptsOn(p, c) != []
    ensures IsLastAttemptOn(p, c, LastIndexOn(p, c))
    ensures p[LastIndexOn(p, c)] == AttemptsOn(p, c)[|AttemptsOn(p, c)| - 1]
  {
    var init, a := p[..|p| - 1], p[|p| - 1];
    assert p == init + [a];
    var q, q0 := AttemptsOn(p, c), AttemptsOn(init, c);
    if a.cardId == c {
      assert q == q0 + [a];
    } else {
      assert q == q0 + [];
      LastIndexOnMeaning(init, c);
      LastStaysLast(init, a, c, LastIndexOn(init, c));
    }
  }

  /** An attempt on another card does not change which attempt is the last on `c`. */
  lemma LastStaysLast(init: seq<Attempt>, a: Attempt, c: CardId, i: int)
    requires IsLastAttemptOn(init, c, i) && a.cardId != c
    ensures IsLastAttemptOn(init + [a], c, i) && (init + [a])[i] == init[i]
  {
    var p := init + [a];
    forall j | i < j < |p| ensures p[j].cardId != c {
      if j < |init| {
        assert p[j] == init[j];
      }
    }
  }

  /** One card as getFlashcards returns it. */
  datatype CardView = CardView(
    card: Card,
    hasBeenReviewed: bool,
    lastResult: Option<bool>,
    isMastered: bool,
    correctCount: nat,
    incorrectCount: nat)

  /** getFlashcards' per-card fields, from the user's attempts on the set. */
  function ViewOf(card: Card, p: seq<Attempt>): CardView {
    var q := AttemptsOn(p, card.id);
    var correctCount := Count(q, AnyCard(true));
    var incorrectCount := Count(q, AnyCard(false));
    CardView(
      card,
      |q| > 0,
      if |q| > 0 then Some(q[|q| - 1].correct) else None,
      Mastered(CardStats(correctCount, incorrectCount)),
      correctCount,
      incorrectCount)
  }

  /** A card has been reviewed iff some attempt is on it. */
  lemma ReviewedIffAttempted(c: CardId, p: seq<Attempt>)
    ensures AttemptsOn(p, c) != [] <==> c in CardIds(p)
  {
    var q := AttemptsOn(p, c);
    if q != [] {
      assert q[0] in q;
    } else {
      assert forall a :: a in p ==> a.cardId != c;
    }
  }

  /** What getFlashcards reports for a card agrees with the set aggregation:
      reviewed iff it has an attempt, the last result is the newest attempt's,
      and the counters and mastery are those of `StatsOf`. */
  lemma ViewOfMeaning(card: Card, p: seq<Attempt>)
    ensures ViewOf(card, p).card == card
    ensures ViewOf(card, p).hasBeenReviewed <==> card.id in CardIds(p)
    ensures ViewOf(card, p).lastResult.None? <==> !ViewOf(card, p).hasBeenReviewed
    ensures ViewOf(card, p).lastResult.Some? ==>
              IsLastAttemptOn(p, card.id, LastIndexOn(p, card.id)) &&
              ViewOf(card, p).lastResult.value == p[LastIndexOn(p, card.id)].correct
    ensures CardStats(ViewOf(card, p).correctCount, ViewOf(card, p).incorrectCount) == StatsOf(p, card.id)
    ensures ViewOf(card, p).isMastered <==> card.id in MasteredIds(p)
  {
    var q := AttemptsOn(p, card.id);
    var v := ViewOf(card, p);
    CountOn(p, card.id, true);
    CountOn(p, card.id, false);
    assert CardStats(v.correctCount, v.incorrectCount) == StatsOf(p, card.id);
    ReviewedIffAttempted(card.id, p);
    if q != [] {
      LastIndexOnMeaning(p, card.id);
    }
  }

  predicate SortedByOrder(vs: seq<CardView>) {
    forall i, j :: 0 <= i < j < |vs| ==> vs[i].card.order <= vs[j].card.order
  }

  /** Places `v` after every view whose order is not greater than its own. */
  function InsertByOrder(v: CardView, vs: seq<CardView>): (r: seq<CardView>)
    requires SortedByOrder(vs)
    ensures SortedByOrder(r)
    ensures multiset(r) == multiset(vs) + multiset{v}
  {
    if vs == [] then [v]
    else if v.card.order < vs[0].card.order then [v] + vs
    else
      var rest := InsertByOrder(v, vs[1..]);
      assert multiset(vs[1..] + [v]) == multiset(vs[1..]) + multiset{v};
      BoundedBelow(vs[0].card.order, rest, vs[1..] + [v]);
      assert vs == [vs[0]] + vs[1..];
      [vs[0]] + rest
  }

  /** A lower bound on `order` carries over to any rearrangement. */
  lemma BoundedBelow(lo: int, r: seq<CardView>, s: seq<CardView>)
    requires multiset(r) == multiset(s)
    requires forall i :: 0 <= i < |s| ==> lo <= s[i].card.order
    ensures forall i :: 0 <= i < |r| ==> lo <= r[i].card.order
  {
    forall i | 0 <= i < |r| ensures lo <= r[i].card.order {
      assert r[i] in multiset(s);
      var j :| 0 <= j < |s| && s[j] == r[i];
    }
  }

  /** An insertion sort by `order`, for `cards.sort((a, b) => a.order - b.order)`:
      each element is inserted after those whose `order` is not larger. */
  function SortByOrder(vs: seq<CardView>): (r: seq<CardView>)
    ensures SortedByOrder(r)
    ensures multiset(r) == multiset(vs)
  {
    if vs == [] then []
    else
      assert vs == vs[..|vs| - 1] + [vs[|vs| - 1]];
      InsertByOrder(vs[|vs| - 1], SortByOrder(vs[..|vs| - 1]))
  }

  function Views(cards: seq<Card>, p: seq<Attempt>): (r: seq<CardView>)
    ensures |r| == |cards|
    ensures forall i :: 0 <= i < |cards| ==> r[i] == ViewOf(cards[i], p)
  {
    if cards == [] then []
    else Views(cards[..|cards| - 1], p) + [ViewOf(cards[|cards| - 1], p)]
  }

  /** The getFlashcards result: one view per card of the set, sorted by `order`. */
  function FlashcardList(cards: seq<Card>, p: seq<Attempt>): (r: seq<CardView>)
    ensures |r| == |cards|
    ensures SortedByOrder(r)
    ensures forall v :: v in r ==> v.card in cards && v == ViewOf(v.card, p)
    ensures forall c :: c in cards ==> ViewOf(c, p) in r
    ensures multiset(r) == multiset(Views(cards, p))
  {
    var vs := Views(cards, p);
    var r := SortByOrder(vs);
    assert |r| == |multiset(r)| == |multiset(vs)| == |vs|;
    assert forall v :: v in r <==> v in vs by {
      forall v ensures v in r <==> v in vs {
        assert v in r <==> v in multiset(r);
        assert v in vs <==> v in multiset(vs);
      }
    }
    assert forall c :: c in cards ==> ViewOf(c, p) in vs by {
      forall c | c in cards ensures ViewOf(c, p) in vs {
        var i :| 0 <= i < |cards| && cards[i] == c;
        assert vs[i] == ViewOf(c, p);
      }
    }
    r
  }

  /** A mastered card is a reviewed card: masteredCards <= reviewedCards. */
  lemma MasteredWithinReviewed(p: seq<Attempt>, totalCards: nat)
    ensures ProgressOf(p, totalCards).masteredCards <= ProgressOf(p, totalCards).reviewedCards
  {
    SubsetCardinality(MasteredIds(p), CardIds(p));
  }

  lemma {:induction false} SubsetCardinality(a: set<CardId>, b: set<CardId>)
    requires a <= b
    ensures |a| <= |b|
  {
    if a != {} {
      var x :| x in a;
      SubsetCardinality(a - {x}, b - {x});
    }
  }

  function CardIdsOfCards(cards: seq<Card>): set<CardId> {
    set c | c in cards :: c.id
  }

  lemma {:induction false} CardIdsOfCardsBound(cards: seq<Card>)
    ensures |CardIdsOfCards(cards)| <= |cards|
  {
    if cards != [] {
      var init := cards[..|cards| - 1];
      CardIdsOfCardsBound(init);
      assert cards == init + [cards[|cards| - 1]];
      assert CardIdsOfCards(cards) == CardIdsOfCards(init) + {cards[|cards| - 1].id};
    }
  }

  /** When every attempt is on a card of the set (the caller of the attempt log
      has to ensure it: recording an answer does not check it), no figure
      exceeds the number of cards and the progress lies between 0 and 100. */
  lemma BoundedByCards(p: seq<Attempt>, cards: seq<Card>)
    requires forall a :: a in p ==> exists c :: c in cards && c.id == a.cardId
    ensures ProgressOf(p, |cards|).reviewedCards <= |cards|
    ensures ProgressOf(p, |cards|).masteredCards <= |cards|
    ensures 0.0 <= ProgressOf(p, |cards|).progress <= 100.0
  {
    assert CardIds(p) <= CardIdsOfCards(cards);
    SubsetCardinality(CardIds(p), CardIdsOfCards(cards));
    CardIdsOfCardsBound(cards);
    MasteredWithinReviewed(p, |cards|);
  }

  /** Answers correct, correct, incorrect on one card leave it at 2 correct and
      1 incorrect, which is mastered; a further incorrect answer un-masters it. */
  lemma TwoToOneIsMastered(x: Attempt, y: Attempt, z: Attempt, w: Attempt)
    requires x.cardId == y.cardId == z.cardId == w.cardId
    requires x.correct && y.correct && !z.correct && !w.correct
    ensures StatsOf([x, y, z], x.cardId) == CardStats(2, 1)
    ensures x.cardId in MasteredIds([x, y, z])
    ensures x.cardId !in MasteredIds([x, y, z, w])
  {
    var c := x.cardId;
    assert [x, y, z][..2] == [x, y] && [x, y][..1] == [x] && [x][..0] == [];
    assert [x, y, z, w][..3] == [x, y, z];
    assert StatsOf([x], c) == CardStats(1, 0);
    assert StatsOf([x, y], c) == CardStats(2, 0);
    assert StatsOf([x, y, z], c) == CardStats(2, 1);
    assert StatsOf([x, y, z, w], c) == CardStats(2, 2);
    assert x in [x, y, z];
  }
}
