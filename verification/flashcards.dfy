/** The backend handlers of the flashcard application over an in-memory copy of
    its tables. The authenticated user is an input (`caller`, `None` when nobody
    is signed in); the database hands out fresh ids from the counter `nextId`. */
module Flashcards {
  import opened Wrappers
  import opened Records
  import opened Mastery

  // ---------------------------------------------------------------------------
  // Table lookups (the indexes the handlers query)

  /** The attempts of user `u` on set `s`, in insertion order (index by_user_and_set). */
  function AttemptsFor(p: seq<Attempt>, u: UserId, s: SetId): (q: seq<Attempt>)
    ensures forall a :: a in q <==> a in p && a.userId == u && a.setId == s
  {
    if p == [] then []
    else (if p[0].userId == u && p[0].setId == s then [p[0]] else []) + AttemptsFor(p[1..], u, s)
  }

  /** The attempt log once every attempt of `u` on `s` is deleted, in the same order. */
  function ClearPair(p: seq<Attempt>, u: UserId, s: SetId): (q: seq<Attempt>)
    ensures forall a :: a in q <==> a in p && !(a.userId == u && a.setId == s)
  {
    if p == [] then []
    else (if p[0].userId == u && p[0].setId == s then [] else [p[0]]) + ClearPair(p[1..], u, s)
  }

  /** The attempt log without the records whose ids are in `ids`. */
  function WithoutIds(p: seq<Attempt>, ids: set<Id>): (q: seq<Attempt>)
    ensures forall a :: a in q <==> a in p && a.id !in ids
  {
    if p == [] then []
    else (if p[0].id in ids then [] else [p[0]]) + WithoutIds(p[1..], ids)
  }

  function IdsOf(p: seq<Attempt>): set<Id> {
    set a | a in p :: a.id
  }

  /** The cards of set `s` (index by_set). */
  function CardsOf(cards: seq<Card>, s: SetId): (r: seq<Card>)
    ensures forall c :: c in r <==> c in cards && c.setId == s
  {
    if cards == [] then []
    else (if cards[0].setId == s then [cards[0]] else []) + CardsOf(cards[1..], s)
  }

  /** `db.get(setId)`: the set with that id, if it still exists. */
  function FindSet(sets: seq<FlashcardSet>, s: SetId): (r: Option<FlashcardSet>)
    ensures r.Some? ==> r.value in sets && r.value.id == s
    ensures r.None? ==> forall x :: x in sets ==> x.id != s
  {
    if sets == [] then None
    else if sets[0].id == s then Some(sets[0])
    else FindSet(sets[1..], s)
  }

  predicate Assigned(xs: seq<Assignment>, u: UserId, s: SetId) {
    exists a :: a in xs && a.userId == u && a.setId == s
  }

  /** The first assignment of `s` to `u` (index by_user_and_set, `.first()`). */
  function FirstAssignment(xs: seq<Assignment>, u: UserId, s: SetId): (r: Option<Assignment>)
    ensures r.Some? <==> Assigned(xs, u, s)
    ensures r.Some? ==> r.value in xs && r.value.userId == u && r.value.setId == s
  {
    if xs == [] then None
    else if xs[0].userId == u && xs[0].setId == s then Some(xs[0])
    else FirstAssignment(xs[1..], u, s)
  }

  /** The assignments once the one with id `id` is deleted. */
  function DeleteAssignment(xs: seq<Assignment>, id: Id): (r: seq<Assignment>)
    ensures forall a :: a in r <==> a in xs && a.id != id
  {
    if xs == [] then []
    else (if xs[0].id == id then [] else [xs[0]]) + DeleteAssignment(xs[1..], id)
  }

  /** Reference definition of "set `s` is no longer assigned to `u`". */
  function Unassign(xs: seq<Assignment>, u: UserId, s: SetId): (r: seq<Assignment>)
    ensures forall a :: a in r <==> a in xs && !(a.userId == u && a.setId == s)
  {
    if xs == [] then []
    else (if xs[0].userId == u && xs[0].setId == s then [] else [xs[0]]) + Unassign(xs[1..], u, s)
  }

  predicate AttemptIdsUnique(p: seq<Attempt>) {
    forall i, j :: 0 <= i < j < |p| ==> p[i].id != p[j].id
  }

  predicate AssignmentIdsUnique(xs: seq<Assignment>) {
    forall i, j :: 0 <= i < j < |xs| ==> xs[i].id != xs[j].id
  }

  /** At most one assignment per (user, set) pair. */
  predicate PairsUnique(xs: seq<Assignment>) {
    forall i, j :: 0 <= i < j < |xs| ==> xs[i].userId != xs[j].userId || xs[i].setId != xs[j].setId
  }

  /** `getLoggedInUser`: the signed-in user, or "Not authenticated". */
  function LoggedIn(caller: Option<UserId>): Result<UserId, Error> {
    if caller.Some? then Ok(caller.value) else Err(NotAuthenticated)
  }

  /** One set's entry in the getAssignedSets result. */
  datatype SetSummary = SetSummary(setId: SetId, name: string, description: string, stats: SetProgress)

  // ---------------------------------------------------------------------------
  // The database

  class Store {
    var sets: seq<FlashcardSet>
    var cards: seq<Card>
    var assignments: seq<Assignment>
    var progress: seq<Attempt>
    var admins: set<UserId>
    var nextId: Id

    /** Every stored id was handed out before `nextId`; attempt and assignment
        ids are unique, and so is each (user, set) assignment. */
    ghost predicate Valid()
      reads this
    {
      && (forall x :: x in sets ==> x.id < nextId)
      && (forall c :: c in cards ==> c.id < nextId && c.setId < nextId)
      && (forall a :: a in assignments ==> a.id < nextId)
      && (forall a :: a in progress ==> a.id < nextId)
      && AttemptIdsUnique(progress)
      && AssignmentIdsUnique(assignments)
      && PairsUnique(assignments)
    }

    constructor (admins: set<UserId>)
      ensures Valid()
      ensures sets == [] && cards == [] && assignments == [] && progress == []
      ensures this.admins == admins
    {
      sets, cards, assignments, progress := [], [], [], [];
      this.admins := admins;
      nextId := 0;
    }

    /** The access guard of the per-set handlers: signed in, and the set is assigned to the caller. */
    function RequireAccess(caller: Option<UserId>, setId: SetId): (r: Result<UserId, Error>)
      reads this
      ensures r.Ok? <==> caller.Some? && Assigned(assignments, caller.value, setId)
      ensures r.Ok? ==> r.value == caller.value
      ensures r.Err? ==> r.error == (if caller.None? then NotAuthenticated else NoAccess)
    {
      match LoggedIn(caller)
      case Err(e) => Err(e)
      case Ok(u) =>
        if FirstAssignment(assignments, u, setId).None? then Err(NoAccess) else Ok(u)
    }

    /** The admin guard: signed in, and the caller has a record in the admins table. */
    function RequireAdmin(caller: Option<UserId>): (r: Result<UserId, Error>)
      reads this
      ensures r.Ok? <==> caller.Some? && caller.value in admins
      ensures r.Ok? ==> r.value == caller.value
      ensures r.Err? ==> r.error == (if caller.None? then NotAuthenticated else AdminRequired)
    {
      match LoggedIn(caller)
      case Err(e) => Err(e)
      case Ok(u) => if u in admins then Ok(u) else Err(AdminRequired)
    }

    /** getAssignedSets' entry for set `s` and user `u`. */
    ghost function SummaryOf(s: FlashcardSet, u: UserId): SetSummary
      reads this
    {
      SetSummary(s.id, s.name, s.description,
                 ProgressOf(AttemptsFor(progress, u, s.id), |CardsOf(cards, s.id)|))
    }

    /** `x` is the summary of a set assigned to `u` that still exists. */
    ghost predicate Reports(x: SetSummary, u: UserId)
      reads this
    {
      exists a :: a in assignments && a.userId == u && FindSet(sets, a.setId).Some? &&
                  x == SummaryOf(FindSet(sets, a.setId).value, u)
    }

    /** getAssignedSets' result over the assignments `xs`: for each assignment of
        `u` whose set still exists, in assignment order, that set's summary. */
    ghost function Summaries(xs: seq<Assignment>, u: UserId): (r: seq<SetSummary>)
      reads this
      ensures |r| <= |xs|
    {
      if xs == [] then []
      else
        var a := xs[|xs| - 1];
        Summaries(xs[..|xs| - 1], u) +
          (if a.userId == u && FindSet(sets, a.setId).Some? then [SummaryOf(FindSet(sets, a.setId).value, u)] else [])
    }

    /** Every summary reports an assignment of `u`, and every assignment of `u`
        whose set exists is reported. */
    lemma {:induction false} SummariesMeaning(xs: seq<Assignment>, u: UserId)
      ensures forall x :: x in Summaries(xs, u) ==>
                exists a :: a in xs && a.userId == u && FindSet(sets, a.setId).Some? &&
                            x == SummaryOf(FindSet(sets, a.setId).value, u)
      ensures forall a :: a in xs && a.userId == u && FindSet(sets, a.setId).Some? ==>
                SummaryOf(FindSet(sets, a.setId).value, u) in Summaries(xs, u)
    {
      if xs != [] {
        var init, last := xs[..|xs| - 1], xs[|xs| - 1];
        SummariesMeaning(init, u);
        assert xs == init + [last];
        assert forall a :: a in init ==> a in xs;
      }
    }

    /** getAssignedSets: one summary per assignment of the caller whose set still
        exists, in assignment order. */
    method GetAssignedSets(caller: Option<UserId>) returns (r: Result<seq<SetSummary>, Error>)
      ensures r.Err? <==> caller.None?
      ensures r.Err? ==> r.error == NotAuthenticated
      ensures r.Ok? ==> r.value == Summaries(assignments, caller.value)
      ensures r.Ok? ==> |r.value| <= |assignments|
      ensures r.Ok? ==> forall x :: x in r.value ==> Reports(x, caller.value)
      ensures r.Ok? ==> forall a :: a in assignments && a.userId == caller.value && FindSet(sets, a.setId).Some? ==>
                          SummaryOf(FindSet(sets, a.setId).value, caller.value) in r.value
    {
      match LoggedIn(caller)
      case Err(e) => return Err(e);
      case Ok(u) =>
        var out: seq<SetSummary> := [];
        for i := 0 to |assignments|
          invariant out == Summaries(assignments[..i], u)
        {
          var a := assignments[i];
          assert assignments[..i + 1][..i] == assignments[..i];
          if a.userId == u {
            match FindSet(sets, a.setId)
            case None =>
            case Some(s) =>
              var setCards := CardsOf(cards, a.setId);
              var attempts := AttemptsFor(progress, u, a.setId);
              var stats := Aggregate(attempts, |setCards|);
              out := out + [SetSummary(s.id, s.name, s.description, stats)];
          }
        }
        assert assignments[..|assignments|] == assignments;
        SummariesMeaning(assignments, u);
        return Ok(out);
    }

    /** getFlashcards: the cards of the set with the caller's statistics, sorted by `order`. */
    function GetFlashcards(caller: Option<UserId>, setId: SetId): (r: Result<seq<CardView>, Error>)
      reads this
      ensures r.Err? <==> RequireAccess(caller, setId).Err?
      ensures r.Err? ==> r.error == RequireAccess(caller, setId).error
      ensures r.Ok? ==> |r.value| == |CardsOf(cards, setId)| && SortedByOrder(r.value)
      ensures r.Ok? ==> forall v :: v in r.value ==>
                v.card in cards && v.card.setId == setId && v == ViewOf(v.card, AttemptsFor(progress, caller.value, setId))
      ensures r.Ok? ==> forall c :: c in cards && c.setId == setId ==>
                ViewOf(c, AttemptsFor(progress, caller.value, setId)) in r.value
    {
      match RequireAccess(caller, setId)
      case Err(e) => Err(e)
      case Ok(u) => Ok(FlashcardList(CardsOf(cards, setId), AttemptsFor(progress, u, setId)))
    }

    /** recordAnswer: appends exactly one attempt when the set is assigned to the caller. */
    method RecordAnswer(caller: Option<UserId>, setId: SetId, cardId: CardId, correct: bool) returns (r: Outcome<Error>)
      requires Valid()
      modifies this
      ensures Valid()
      ensures r.Pass? <==> old(RequireAccess(caller, setId)).Ok?
      ensures r.Fail? ==> r.error == old(RequireAccess(caller, setId)).error
      ensures r.Fail? ==> progress == old(progress) && nextId == old(nextId)
      ensures r.Pass? ==> progress == old(progress) + [Attempt(old(nextId), caller.value, setId, cardId, correct)]
      ensures r.Pass? ==> nextId == old(nextId) + 1
      ensures sets == old(sets) && cards == old(cards) && assignments == old(assignments) && admins == old(admins)
    {
      match RequireAccess(caller, setId)
      case Err(e) => return Fail(e);
      case Ok(u) =>
        progress := progress + [Attempt(nextId, u, setId, cardId, correct)];
        nextId := nextId + 1;
        return Pass;
    }

    /** resetProgress: deletes, one by one, every attempt of the caller on the set. */
    method ResetProgress(caller: Option<UserId>, setId: SetId) returns (r: Outcome<Error>)
      requires Valid()
      modifies this
      ensures Valid()
      ensures r.Pass? <==> old(RequireAccess(caller, setId)).Ok?
      ensures r.Fail? ==> r.error == old(RequireAccess(caller, setId)).error && progress == old(progress)
      ensures r.Pass? ==> progress == ClearPair(old(progress), caller.value, setId)
      ensures sets == old(sets) && cards == old(cards) && assignments == old(assignments)
      ensures admins == old(admins) && nextId == old(nextId)
    {
      match RequireAccess(caller, setId)
      case Err(e) => return Fail(e);
      case Ok(u) =>
        var records := AttemptsFor(progress, u, setId);
        ghost var before := progress;
        ResetStart(before, records);
        for k := 0 to |records|
          invariant progress == WithoutIds(before, IdsOf(records[..k]))
          invariant sets == old(sets) && cards == old(cards) && assignments == old(assignments)
          invariant admins == old(admins) && nextId == old(nextId)
        {
          ResetStep(before, records, k);
          progress := WithoutIds(progress, {records[k].id});
        }
        assert records[..|records|] == records;
        ResetDeletesThePair(before, u, setId);
        return Pass;
    }

    /** createFlashcardSet: one set, then one card per input with `order` = its position. */
    method CreateFlashcardSet(caller: Option<UserId>, name: string, description: string, input: seq<CardInput>)
      returns (r: Result<SetId, Error>)
      requires Valid()
      modifies this
      ensures Valid()
      ensures r.Ok? <==> old(RequireAdmin(caller)).Ok?
      ensures r.Err? ==> r.error == old(RequireAdmin(caller)).error
      ensures r.Err? ==> sets == old(sets) && cards == old(cards) && nextId == old(nextId)
      ensures r.Ok? ==> r.value == old(nextId) && nextId == old(nextId) + 1 + |input|
      ensures r.Ok? ==> sets == old(sets) + [FlashcardSet(r.value, name, description, caller.value)]
      ensures r.Ok? ==> cards == old(cards) + NumberedCards(r.value, input, |input|)
      ensures r.Ok? ==> CardsOf(cards, r.value) == NumberedCards(r.value, input, |input|)
      ensures assignments == old(assignments) && progress == old(progress) && admins == old(admins)
    {
      match RequireAdmin(caller)
      case Err(e) => return Err(e);
      case Ok(u) =>
        var setId := nextId;
        sets := sets + [FlashcardSet(setId, name, description, u)];
        nextId := nextId + 1;
        ghost var before := cards;
        for i := 0 to |input|
          invariant nextId == setId + 1 + i
          invariant cards == before + NumberedCards(setId, input, i)
          invariant Valid()
          invariant sets == old(sets) + [FlashcardSet(setId, name, description, u)]
          invariant assignments == old(assignments) && progress == old(progress) && admins == old(admins)
        {
          var c := Card(nextId, setId, input[i].question, input[i].answer, input[i].hint, i);
          assert NumberedCards(setId, input, i + 1) == NumberedCards(setId, input, i) + [c];
          assert cards + [c] == before + NumberedCards(setId, input, i + 1);
          cards := cards + [c];
          nextId := nextId + 1;
        }
        NumberedCardsInSet(setId, input, |input|);
        NewSetCards(before, NumberedCards(setId, input, |input|), setId);
        return Ok(setId);
    }

    /** assignSetToUser: refuses a second assignment of the same set to the same user. */
    method AssignSetToUser(caller: Option<UserId>, userId: UserId, setId: SetId) returns (r: Outcome<Error>)
      requires Valid()
      modifies this
      ensures Valid() && PairsUnique(assignments)
      ensures r.Pass? <==> old(RequireAdmin(caller)).Ok? && !old(Assigned(assignments, userId, setId))
      ensures r.Fail? ==> assignments == old(assignments) && nextId == old(nextId)
      ensures r.Fail? ==> r.error == if old(RequireAdmin(caller)).Err? then old(RequireAdmin(caller)).error else AlreadyAssigned
      ensures r.Pass? ==> assignments == old(assignments) + [Assignment(old(nextId), userId, setId, caller.value)]
      ensures r.Pass? ==> nextId == old(nextId) + 1
      ensures sets == old(sets) && cards == old(cards) && progress == old(progress) && admins == old(admins)
    {
      match RequireAdmin(caller)
      case Err(e) => return Fail(e);
      case Ok(adminId) =>
        if FirstAssignment(assignments, userId, setId).Some? {
          return Fail(AlreadyAssigned);
        }
        assignments := assignments + [Assignment(nextId, userId, setId, adminId)];
        nextId := nextId + 1;
        return Pass;
    }

    /** removeSetAssignment: deletes the assignment if there is one, otherwise changes nothing. */
    method RemoveSetAssignment(caller: Option<UserId>, userId: UserId, setId: SetId) returns (r: Outcome<Error>)
      requires Valid()
      modifies this
      ensures Valid()
      ensures r.Pass? <==> old(RequireAdmin(caller)).Ok?
      ensures r.Fail? ==> r.error == old(RequireAdmin(caller)).error && assignments == old(assignments)
      ensures r.Pass? ==> assignments == Unassign(old(assignments), userId, setId)
      ensures !Assigned(old(assignments), userId, setId) ==> assignments == old(assignments)
      ensures sets == old(sets) && cards == old(cards) && progress == old(progress)
      ensures admins == old(admins) && nextId == old(nextId)
    {
      match RequireAdmin(caller)
      case Err(e) => return Fail(e);
      case Ok(_) =>
        var found := FirstAssignment(assignments, userId, setId);
        if found.Some? {
          DeleteIsUnassign(assignments, found.value, userId, setId);
          assignments := DeleteAssignment(assignments, found.value.id);
          UnassignKeepsUnique(old(assignments), userId, setId);
        } else {
          UnassignAbsent(assignments, userId, setId);
        }
        return Pass;
    }
  }

  // ---------------------------------------------------------------------------
  // Lemmas about the tables

  lemma {:induction false} WithoutNoIds(p: seq<Attempt>)
    ensures WithoutIds(p, {}) == p
  {
    if p != [] {
      WithoutNoIds(p[1..]);
      assert p == [p[0]] + p[1..];
    }
  }

  lemma {:induction false} WithoutIdsTwice(p: seq<Attempt>, ids: set<Id>, x: Id)
    ensures WithoutIds(WithoutIds(p, ids), {x}) == WithoutIds(p, ids + {x})
  {
    if p != [] {
      var head, rest := p[0], WithoutIds(p[1..], ids);
      WithoutIdsTwice(p[1..], ids, x);
      if head.id in ids {
        assert WithoutIds(p, ids) == rest;
        assert WithoutIds(p, ids + {x}) == WithoutIds(p[1..], ids + {x});
      } else {
        assert ([head] + rest)[0] == head && ([head] + rest)[1..] == rest;
        calc {
          WithoutIds(WithoutIds(p, ids), {x});
          WithoutIds([head] + rest, {x});
          (if head.id == x then [] else [head]) + WithoutIds(rest, {x});
          (if head.id == x then [] else [head]) + WithoutIds(p[1..], ids + {x});
          WithoutIds(p, ids + {x});
        }
      }
    }
  }

  lemma {:induction false} WithoutIdsIsClearPair(p: seq<Attempt>, ids: set<Id>, u: UserId, s: SetId)
    requires forall a :: a in p ==> (a.id in ids <==> a.userId == u && a.setId == s)
    ensures WithoutIds(p, ids) == ClearPair(p, u, s)
  {
    if p != [] {
      assert p[0] in p;
      assert forall a :: a in p[1..] ==> a in p;
      WithoutIdsIsClearPair(p[1..], ids, u, s);
    }
  }

  /** With unique ids, the ids of a pair's attempts pick out exactly that pair's attempts. */
  lemma DeletedIdsAreThePair(p: seq<Attempt>, u: UserId, s: SetId)
    requires AttemptIdsUnique(p)
    ensures forall a :: a in p ==> (a.id in IdsOf(AttemptsFor(p, u, s)) <==> a.userId == u && a.setId == s)
  {
    forall a | a in p && a.id in IdsOf(AttemptsFor(p, u, s))
      ensures a.userId == u && a.setId == s
    {
      var b :| b in AttemptsFor(p, u, s) && b.id == a.id;
      var i :| 0 <= i < |p| && p[i] == a;
      var j :| 0 <= j < |p| && p[j] == b;
      assert i == j;
    }
  }

  lemma {:induction false} ClearPairKeepsUnique(p: seq<Attempt>, u: UserId, s: SetId)
    requires AttemptIdsUnique(p)
    ensures AttemptIdsUnique(ClearPair(p, u, s))
  {
    if p != [] {
      assert AttemptIdsUnique(p[1..]);
      ClearPairKeepsUnique(p[1..], u, s);
      var rest := ClearPair(p[1..], u, s);
      forall a | a in rest ensures a.id != p[0].id {
        var j :| 0 <= j < |p[1..]| && p[1..][j] == a;
        assert p[j + 1] == a;
      }
    }
  }

  lemma ResetStart(p: seq<Attempt>, records: seq<Attempt>)
    ensures WithoutIds(p, IdsOf(records[..0])) == p
  {
    assert IdsOf(records[..0]) == {};
    WithoutNoIds(p);
  }

  /** Deleting one more record by id extends the set of deleted ids by its id. */
  lemma ResetStep(p: seq<Attempt>, records: seq<Attempt>, k: nat)
    requires k < |records|
    ensures WithoutIds(WithoutIds(p, IdsOf(records[..k])), {records[k].id}) == WithoutIds(p, IdsOf(records[..k + 1]))
  {
    assert records[..k + 1] == records[..k] + [records[k]];
    assert IdsOf(records[..k + 1]) == IdsOf(records[..k]) + {records[k].id};
    WithoutIdsTwice(p, IdsOf(records[..k]), records[k].id);
  }

  /** Deleting the ids of a pair's attempts deletes exactly that pair's attempts. */
  lemma ResetDeletesThePair(p: seq<Attempt>, u: UserId, s: SetId)
    requires AttemptIdsUnique(p)
    ensures WithoutIds(p, IdsOf(AttemptsFor(p, u, s))) == ClearPair(p, u, s)
    ensures AttemptIdsUnique(ClearPair(p, u, s))
  {
    DeletedIdsAreThePair(p, u, s);
    WithoutIdsIsClearPair(p, IdsOf(AttemptsFor(p, u, s)), u, s);
    ClearPairKeepsUnique(p, u, s);
  }

  lemma {:induction false} CardsOfAppend(a: seq<Card>, b: seq<Card>, s: SetId)
    ensures CardsOf(a + b, s) == CardsOf(a, s) + CardsOf(b, s)
  {
    if a == [] {
      assert a + b == b;
    } else {
      assert (a + b)[0] == a[0];
      assert (a + b)[1..] == a[1..] + b;
      CardsOfAppend(a[1..], b, s);
    }
  }

  lemma NoCardsOf(a: seq<Card>, s: SetId)
    requires forall c :: c in a ==> c.setId != s
    ensures CardsOf(a, s) == []
  {
    if CardsOf(a, s) != [] {
      assert CardsOf(a, s)[0] in CardsOf(a, s);
    }
  }

  lemma {:induction false} AllCardsOf(a: seq<Card>, s: SetId)
    requires forall c :: c in a ==> c.setId == s
    ensures CardsOf(a, s) == a
  {
    if a != [] {
      assert forall c :: c in a[1..] ==> c in a;
      AllCardsOf(a[1..], s);
    }
  }

  /** The cards of a freshly numbered set are exactly the cards inserted for it. */
  lemma NewSetCards(before: seq<Card>, added: seq<Card>, s: SetId)
    requires forall c :: c in before ==> c.setId < s
    requires forall c :: c in added ==> c.setId == s
    ensures CardsOf(before + added, s) == added
  {
    CardsOfAppend(before, added, s);
    NoCardsOf(before, s);
    AllCardsOf(added, s);
  }

  /** The first `n` cards createFlashcardSet inserts for set `s`: ids follow the
      set's own id, and each card carries its input with `order` = its position. */
  function NumberedCards(s: SetId, input: seq<CardInput>, n: nat): (r: seq<Card>)
    requires n <= |input|
    ensures |r| == n
    ensures forall j :: 0 <= j < n ==>
              r[j] == Card(s + 1 + j, s, input[j].question, input[j].answer, input[j].hint, j)
  {
    if n == 0 then []
    else NumberedCards(s, input, n - 1) + [Card(s + n, s, input[n - 1].question, input[n - 1].answer, input[n - 1].hint, n - 1)]
  }

  lemma NumberedCardsInSet(s: SetId, input: seq<CardInput>, n: nat)
    requires n <= |input|
    ensures forall c :: c in NumberedCards(s, input, n) ==> c.setId == s
  {
    var r := NumberedCards(s, input, n);
    forall c | c in r ensures c.setId == s {
      var j :| 0 <= j < n && r[j] == c;
    }
  }

  lemma {:induction false} DeleteIsUnassign(xs: seq<Assignment>, found: Assignment, u: UserId, s: SetId)
    requires AssignmentIdsUnique(xs) && PairsUnique(xs)
    requires found in xs && found.userId == u && found.setId == s
    ensures DeleteAssignment(xs, found.id) == Unassign(xs, u, s)
  {
    var k :| 0 <= k < |xs| && xs[k] == found;
    DeleteIsUnassignFrom(xs, found, u, s, k);
  }

  lemma {:induction false} DeleteIsUnassignFrom(xs: seq<Assignment>, found: Assignment, u: UserId, s: SetId, k: nat)
    requires AssignmentIdsUnique(xs) && PairsUnique(xs)
    requires found.userId == u && found.setId == s
    requires k < |xs| ==> xs[k] == found
    requires forall i :: 0 <= i < |xs| && i != k ==> xs[i].id != found.id && (xs[i].userId != u || xs[i].setId != s)
    ensures DeleteAssignment(xs, found.id) == Unassign(xs, u, s)
  {
    if xs != [] {
      assert AssignmentIdsUnique(xs[1..]) && PairsUnique(xs[1..]);
      DeleteIsUnassignFrom(xs[1..], found, u, s, if k == 0 then |xs| else k - 1);
    }
  }

  lemma {:induction false} UnassignAbsent(xs: seq<Assignment>, u: UserId, s: SetId)
    requires !Assigned(xs, u, s)
    ensures Unassign(xs, u, s) == xs
  {
    if xs != [] {
      assert xs[0] in xs;
      assert forall a :: a in xs[1..] ==> a in xs;
      UnassignAbsent(xs[1..], u, s);
      assert xs == [xs[0]] + xs[1..];
    }
  }

  lemma ConsKeepsUnique(x: Assignment, rest: seq<Assignment>)
    requires AssignmentIdsUnique(rest) && PairsUnique(rest)
    requires forall a :: a in rest ==> a.id != x.id && (a.userId != x.userId || a.setId != x.setId)
    ensures AssignmentIdsUnique([x] + rest) && PairsUnique([x] + rest)
  {
    var r := [x] + rest;
    forall i, j | 0 <= i < j < |r|
      ensures r[i].id != r[j].id && (r[i].userId != r[j].userId || r[i].setId != r[j].setId)
    {
      assert r[j] == rest[j - 1] && rest[j - 1] in rest;
      if i > 0 {
        assert r[i] == rest[i - 1];
      }
    }
  }

  /** Removing an assignment keeps assignment ids and (user, set) pairs unique. */
  lemma {:induction false} UnassignKeepsUnique(xs: seq<Assignment>, u: UserId, s: SetId)
    requires AssignmentIdsUnique(xs) && PairsUnique(xs)
    ensures AssignmentIdsUnique(Unassign(xs, u, s)) && PairsUnique(Unassign(xs, u, s))
  {
    if xs != [] {
      assert AssignmentIdsUnique(xs[1..]) && PairsUnique(xs[1..]);
      UnassignKeepsUnique(xs[1..], u, s);
      var rest := Unassign(xs[1..], u, s);
      if xs[0].userId == u && xs[0].setId == s {
        assert Unassign(xs, u, s) == rest;
      } else {
        forall a | a in rest ensures a.id != xs[0].id && (a.userId != xs[0].userId || a.setId != xs[0].setId) {
          var j :| 0 <= j < |xs[1..]| && xs[1..][j] == a;
          assert xs[j + 1] == a;
        }
        ConsKeepsUnique(xs[0], rest);
      }
    }
  }

  /** Removing an assignment twice is the same as removing it once. */
  lemma UnassignIdempotent(xs: seq<Assignment>, u: UserId, s: SetId)
    ensures Unassign(Unassign(xs, u, s), u, s) == Unassign(xs, u, s)
  {
    UnassignAbsent(Unassign(xs, u, s), u, s);
  }

  lemma {:induction false} AttemptsForAppend(p: seq<Attempt>, q: seq<Attempt>, u: UserId, s: SetId)
    ensures AttemptsFor(p + q, u, s) == AttemptsFor(p, u, s) + AttemptsFor(q, u, s)
  {
    if p == [] {
      assert p + q == q;
    } else {
      assert (p + q)[0] == p[0];
      assert (p + q)[1..] == p[1..] + q;
      AttemptsForAppend(p[1..], q, u, s);
    }
  }

  /** A recorded answer raises exactly one counter of its own card by one and
      leaves every other card's counters as they were. */
  lemma RecordedAnswerCounts(p: seq<Attempt>, a: Attempt, c: CardId)
    ensures c != a.cardId ==>
              StatsOf(AttemptsFor(p + [a], a.userId, a.setId), c) == StatsOf(AttemptsFor(p, a.userId, a.setId), c)
    ensures StatsOf(AttemptsFor(p + [a], a.userId, a.setId), a.cardId).correct ==
              StatsOf(AttemptsFor(p, a.userId, a.setId), a.cardId).correct + (if a.correct then 1 else 0)
    ensures StatsOf(AttemptsFor(p + [a], a.userId, a.setId), a.cardId).incorrect ==
              StatsOf(AttemptsFor(p, a.userId, a.setId), a.cardId).incorrect + (if a.correct then 0 else 1)
  {
    AttemptsForAppend(p, [a], a.userId, a.setId);
    assert AttemptsFor([a], a.userId, a.setId) == [a];
    var q := AttemptsFor(p, a.userId, a.setId);
    assert AttemptsFor(p + [a], a.userId, a.setId) == q + [a];
    StatsSnoc(q, a, c);
    StatsSnoc(q, a, a.cardId);
  }

  /** After a reset, the pair has no attempts left: nothing reviewed, nothing
      mastered, and no card of the set counts as reviewed. */
  lemma {:induction false} NoAttemptsFor(p: seq<Attempt>, u: UserId, s: SetId)
    requires forall a :: a in p ==> !(a.userId == u && a.setId == s)
    ensures AttemptsFor(p, u, s) == []
  {
    if p != [] {
      assert p[0] in p;
      assert forall a :: a in p[1..] ==> a in p;
      NoAttemptsFor(p[1..], u, s);
    }
  }

  lemma ResetClearsProgress(p: seq<Attempt>, u: UserId, s: SetId, cards: seq<Card>)
    ensures AttemptsFor(ClearPair(p, u, s), u, s) == []
    ensures ProgressOf(AttemptsFor(ClearPair(p, u, s), u, s), |cards|).reviewedCards == 0
    ensures ProgressOf(AttemptsFor(ClearPair(p, u, s), u, s), |cards|).masteredCards == 0
    ensures forall c :: c in cards ==> !ViewOf(c, AttemptsFor(ClearPair(p, u, s), u, s)).hasBeenReviewed
  {
    NoAttemptsFor(ClearPair(p, u, s), u, s);
    assert CardIds([]) == {};
    assert MasteredIds([]) == {};
  }

  /** A reset leaves every other (user, set) pair's attempts as they were, in order. */
  lemma {:induction false} ResetKeepsOthers(p: seq<Attempt>, u: UserId, s: SetId, u2: UserId, s2: SetId)
    requires u2 != u || s2 != s
    ensures AttemptsFor(ClearPair(p, u, s), u2, s2) == AttemptsFor(p, u2, s2)
  {
    if p != [] {
      ResetKeepsOthers(p[1..], u, s, u2, s2);
      var head := if p[0].userId == u && p[0].setId == s then [] else [p[0]];
      AttemptsForAppend(head, ClearPair(p[1..], u, s), u2, s2);
    }
  }
}
