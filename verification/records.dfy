/** Record shapes of the application's tables (flashcardSets, flashcards,
    userSetAssignments, userProgress) and the errors the backend raises. */
module Records {
  import opened Wrappers

  /** Document identifiers; the database hands out fresh ones on insert. */
  type Id = nat
  type UserId = Id
  type SetId = Id
  type CardId = Id

  datatype FlashcardSet = FlashcardSet(id: SetId, name: string, description: string, createdBy: UserId)

  datatype Card = Card(id: CardId, setId: SetId, question: string, answer: string, hint: Option<string>, order: int)

  /** One card as an administrator submits it, before it is stored. */
  datatype CardInput = CardInput(question: string, answer: string, hint: Option<string>)

  datatype Assignment = Assignment(id: Id, userId: UserId, setId: SetId, assignedBy: UserId)

  /** One answer submission; never updated, only inserted or deleted. */
  datatype Attempt = Attempt(id: Id, userId: UserId, setId: SetId, cardId: CardId, correct: bool)

  /** The exceptions thrown by the backend handlers. */
  datatype Error =
    | NotAuthenticated   // "Not authenticated"
    | NoAccess           // "You don't have access to this flashcard set"
    | AdminRequired      // "Admin access required"
    | AlreadyAssigned    // "Set already assigned to this user"
}
