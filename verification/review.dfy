/** The review screen of one flashcard set: which card is shown, whether its hint
    and answer are visible, and whether an answer is being recorded.

    `Step` is the reference transition function over a `Screen` (a snapshot of
    the four state fields plus whether the screen has been left); the class
    `ReviewSession` holds the same fields and updates them in place, and each of
    its handlers is specified by `Step`. */
module Review {
  import opened Wrappers
  import opened Records
  import opened Mastery
  import opened Flashcards

  datatype Screen = Screen(
    index: nat,           // currentIndex
    showHint: bool,
    showAnswer: bool,
    isSubmitting: bool,
    finished: bool)       // onBack has been called: the screen is gone

  /** What the user can do on the screen. `Submit` is a click on an answer
      button; `Settle` is the end of the write it starts, successful or not. */
  datatype Event = Reveal | AskHint | Submit | Settle | Next | Back

  const Initial := Screen(0, false, false, false, false)

  /** `currentCard.hint` is truthy: present and not the empty string. */
  predicate HasHint(v: CardView) {
    v.card.hint.Some? && v.card.hint.value != []
  }

  predicate IsLast(cards: seq<CardView>, s: Screen) {
    s.index == |cards| - 1
  }

  /** The card on screen; none for an empty list ("No Flashcards"). */
  function CurrentCard(cards: seq<CardView>, s: Screen): (r: Option<CardView>)
    ensures Inv(cards, s) ==> (r.None? <==> cards == [])
    ensures r.Some? ==> r.value in cards
  {
    if s.index < |cards| then Some(cards[s.index]) else None
  }

  /** The states the screen can be in: the index points at a card (0 when there
      are none), and a visible hint belongs to a card that has one. */
  predicate Inv(cards: seq<CardView>, s: Screen) {
    && (if cards == [] then s.index == 0 else s.index < |cards|)
    && (s.showHint ==> s.index < |cards| && HasHint(cards[s.index]))
  }

  /** The "Show Hint" button is on screen. */
  predicate HintOffered(cards: seq<CardView>, s: Screen) {
    s.index < |cards| && HasHint(cards[s.index]) && !s.showAnswer && !s.showHint
  }

  /** The "Incorrect" / "Correct" buttons are on screen and enabled. */
  predicate AnswerButtonsEnabled(cards: seq<CardView>, s: Screen) {
    cards != [] && s.showAnswer && !s.isSubmitting
  }

  /** One event. Nothing but "Back" is on screen for an empty list, nothing at
      all once the screen is left, and a click on a control that is not shown
      changes nothing. */
  function Step(cards: seq<CardView>, s: Screen, e: Event): Screen {
    if s.finished then s
    else if e == Back then s.(finished := true)
    else if cards == [] then s
    else
      match e
      case Reveal => if !s.showAnswer then s.(showAnswer := true) else s
      case AskHint => if HintOffered(cards, s) then s.(showHint := true) else s
      case Submit => if AnswerButtonsEnabled(cards, s) then s.(isSubmitting := true) else s
      case Settle => s.(isSubmitting := false)
      case Next =>
        if !s.showAnswer then s
        else if !IsLast(cards, s) then s.(index := s.index + 1, showHint := false, showAnswer := false)
        else s.(finished := true)
      case Back => s
  }

  /** The events in order. */
  function Run(cards: seq<CardView>, s: Screen, es: seq<Event>): Screen
    decreases |es|
  {
    if es == [] then s else Run(cards, Step(cards, s, es[0]), es[1..])
  }

  function Nexts(es: seq<Event>): (n: nat)
    ensures n <= |es|
  {
    if es == [] then 0 else (if es[0] == Next then 1 else 0) + Nexts(es[1..])
  }

  /** The width of the progress bar, in percent. */
  function ProgressWidth(cards: seq<CardView>, s: Screen): (r: real)
    requires cards != []
  {
    ((s.index + 1) as real / |cards| as real) * 100.0
  }

  // ---------------------------------------------------------------------------
  // Properties of the transitions

  lemma InitialInv(cards: seq<CardView>)
    ensures Inv(cards, Initial) && CurrentCard(cards, Initial) == if cards == [] then None else Some(cards[0])
  {
  }

  /** Every event keeps the screen in a state it can be in. */
  lemma StepKeepsInv(cards: seq<CardView>, s: Screen, e: Event)
    requires Inv(cards, s)
    ensures Inv(cards, Step(cards, s, e))
  {
  }

  lemma {:induction false} RunKeepsInv(cards: seq<CardView>, s: Screen, es: seq<Event>)
    requires Inv(cards, s)
    ensures Inv(cards, Run(cards, s, es))
    decreases |es|
  {
    if es != [] {
      StepKeepsInv(cards, s, es[0]);
      RunKeepsInv(cards, Step(cards, s, es[0]), es[1..]);
    }
  }

  /** No skipping: the index moves only on "Next", only once the answer is
      shown, only by one, and never past the last card. */
  lemma NoSkip(cards: seq<CardView>, s: Screen, e: Event)
    requires Step(cards, s, e).index != s.index
    ensures e == Next && s.showAnswer && !s.finished && !IsLast(cards, s)
    ensures Step(cards, s, e).index == s.index + 1
  {
  }

  /** "Next" on a card with its answer shown: the following card with hint and
      answer hidden, or, on the last card, the screen is left at the same index.
      The submitting flag is left as it is in both cases. */
  lemma NextMoves(cards: seq<CardView>, s: Screen)
    requires Inv(cards, s) && cards != [] && s.showAnswer && !s.finished
    ensures var t := Step(cards, s, Next);
      && t.isSubmitting == s.isSubmitting
      && (if s.index < |cards| - 1
          then t.index == s.index + 1 && !t.showHint && !t.showAnswer && !t.finished
          else t.index == s.index && t.finished)
  {
  }

  /** Answering never advances: a click on an answer button and the end of its
      write leave the card, the hint and the answer as they are, and the buttons
      are disabled while the write runs and enabled again after it. */
  lemma AnswerStaysOnCard(cards: seq<CardView>, s: Screen)
    requires AnswerButtonsEnabled(cards, s) && !s.finished
    ensures var during := Step(cards, s, Submit);
      && during.isSubmitting && !AnswerButtonsEnabled(cards, during)
      && during.(isSubmitting := false) == s
      && Step(cards, during, Settle) == s
  {
  }

  /** The hint is shown only for a card that has one, while its answer is hidden. */
  lemma HintOnlyWhenOffered(cards: seq<CardView>, s: Screen, e: Event)
    requires Step(cards, s, e).showHint && !s.showHint
    ensures e == AskHint && s.index < |cards| && HasHint(cards[s.index]) && !s.showAnswer
  {
  }

  /** With no cards there is no current card, and nothing but "Back" has an effect. */
  lemma EmptyListInert(s: Screen, e: Event)
    requires Inv([], s)
    ensures CurrentCard([], s).None?
    ensures Step([], s, e) == if e == Back && !s.finished then s.(finished := true) else s
  {
  }

  /** Once the screen is left, nothing changes it. */
  lemma {:induction false} FinishedIsFinal(cards: seq<CardView>, s: Screen, es: seq<Event>)
    requires s.finished
    ensures Run(cards, s, es) == s
    decreases |es|
  {
    if es != [] {
      FinishedIsFinal(cards, Step(cards, s, es[0]), es[1..]);
    }
  }

  /** Along any sequence of events the index never goes down and goes up by at
      most the number of "Next" clicks. */
  lemma {:induction false} RunIndexBounds(cards: seq<CardView>, s: Screen, es: seq<Event>)
    ensures s.index <= Run(cards, s, es).index <= s.index + Nexts(es)
    decreases |es|
  {
    if es != [] {
      var t := Step(cards, s, es[0]);
      if t.index != s.index {
        NoSkip(cards, s, es[0]);
      }
      RunIndexBounds(cards, t, es[1..]);
    }
  }

  /** Revealing, then moving on, visits the cards one by one: after `k` such
      rounds from the start the screen shows card `k`. */
  lemma {:induction false} RevealNextVisits(cards: seq<CardView>, k: nat)
    requires k < |cards|
    ensures Run(cards, Initial, Rounds(k)) == Screen(k, false, false, false, false)
  {
    if k > 0 {
      RevealNextVisits(cards, k - 1);
      RunAppend(cards, Initial, Rounds(k - 1), [Reveal, Next]);
    }
  }

  function Rounds(k: nat): (es: seq<Event>)
    ensures |es| == 2 * k
  {
    if k == 0 then [] else Rounds(k - 1) + [Reveal, Next]
  }

  lemma {:induction false} RunAppend(cards: seq<CardView>, s: Screen, es: seq<Event>, more: seq<Event>)
    ensures Run(cards, s, es + more) == Run(cards, Run(cards, s, es), more)
    decreases |es|
  {
    if es != [] {
      assert (es + more)[0] == es[0] && (es + more)[1..] == es[1..] + more;
      RunAppend(cards, Step(cards, s, es[0]), es[1..], more);
    } else {
      assert es + more == more;
    }
  }

  /** The bar grows with the card number and is full exactly on the last card. */
  lemma ProgressWidthBounds(cards: seq<CardView>, s: Screen)
    requires Inv(cards, s) && cards != []
    ensures 0.0 < ProgressWidth(cards, s) <= 100.0
    ensures ProgressWidth(cards, s) == 100.0 <==> IsLast(cards, s)
  {
  }

  // ---------------------------------------------------------------------------
  // The component's state, updated in place

  class ReviewSession {
    const setId: SetId
    const cards: seq<CardView>
    var currentIndex: nat
    var showHint: bool
    var showAnswer: bool
    var isSubmitting: bool
    var finished: bool

    function State(): Screen
      reads this
    {
      Screen(currentIndex, showHint, showAnswer, isSubmitting, finished)
    }

    /** The screen's state is one `Inv` allows, and the list is a getFlashcards
        result: sorted by `order`, every card on the set under review. */
    ghost predicate Valid()
      reads this
    {
      && Inv(cards, State())
      && SortedByOrder(cards)
      && (forall v :: v in cards ==> v.card.setId == setId)
    }

    /** The screen as first shown: the caller's getFlashcards result for the set,
        first card, hint and answer hidden, not submitting. */
    constructor (store: Store, caller: Option<UserId>, setId: SetId)
      requires store.GetFlashcards(caller, setId).Ok?
      ensures this.setId == setId && cards == store.GetFlashcards(caller, setId).value
      ensures State() == Initial && Valid()
    {
      this.setId, cards := setId, store.GetFlashcards(caller, setId).value;
      currentIndex, showHint, showAnswer, isSubmitting, finished := 0, false, false, false, false;
    }

    /** "Reveal Answer". */
    method RevealAnswer()
      requires Valid()
      modifies this
      ensures Valid() && State() == Step(cards, old(State()), Reveal)
    {
      if !finished && cards != [] && !showAnswer {
        showAnswer := true;
      }
    }

    /** "Show Hint". */
    method ShowHint()
      requires Valid()
      modifies this
      ensures Valid() && State() == Step(cards, old(State()), AskHint)
    {
      if !finished && cards != [] && HintOffered(cards, State()) {
        showHint := true;
      }
    }

    /** handleAnswer: mark the screen as submitting, record the answer for the
        card on screen, and clear the mark whether the write succeeded or not.
        `None` when the answer buttons are not on screen or are disabled. */
    method HandleAnswer(store: Store, caller: Option<UserId>, correct: bool) returns (outcome: Option<Outcome<Error>>)
      requires Valid() && store.Valid()
      modifies this, store
      ensures Valid() && store.Valid()
      ensures outcome.None? ==> State() == old(State())
      ensures outcome.Some? ==> State() == Step(cards, Step(cards, old(State()), Submit), Settle)
      ensures outcome.Some? <==> !old(finished) && old(AnswerButtonsEnabled(cards, State()))
      ensures outcome.None? ==> store.progress == old(store.progress) && store.nextId == old(store.nextId)
      ensures outcome.Some? ==> (outcome.value.Pass? <==> old(store.RequireAccess(caller, setId)).Ok?)
      ensures outcome.Some? && outcome.value.Pass? ==>
                store.progress == old(store.progress) +
                  [Attempt(old(store.nextId), caller.value, setId, cards[old(currentIndex)].card.id, correct)]
      ensures outcome.Some? && outcome.value.Pass? ==>
                cards[old(currentIndex)].card.setId == setId && store.nextId == old(store.nextId) + 1
      ensures outcome.Some? && outcome.value.Fail? ==>
                store.progress == old(store.progress) && store.nextId == old(store.nextId)
      ensures store.sets == old(store.sets) && store.cards == old(store.cards)
      ensures store.assignments == old(store.assignments) && store.admins == old(store.admins)
    {
      if finished || !AnswerButtonsEnabled(cards, State()) {
        return None;
      }
      isSubmitting := true;
      var r := store.RecordAnswer(caller, setId, cards[currentIndex].card.id, correct);
      isSubmitting := false;
      return Some(r);
    }

    /** handleNext: the next card with hint and answer hidden, or leave the
        screen on the last card. */
    method HandleNext()
      requires Valid()
      modifies this
      ensures Valid() && State() == Step(cards, old(State()), Next)
    {
      if finished || cards == [] || !showAnswer {
        return;
      }
      if currentIndex != |cards| - 1 {
        currentIndex := currentIndex + 1;
        showHint := false;
        showAnswer := false;
      } else {
        finished := true;
      }
    }

    /** "Back to Dashboard". */
    method GoBack()
      requires Valid()
      modifies this
      ensures Valid() && State() == Step(cards, old(State()), Event.Back)
    {
      finished := true;
    }
  }
}
