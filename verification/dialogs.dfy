/** A dialog that renders its form only while open (`{open && <Form />}`
    in both dialogs): the form's state is created from the props when it
    mounts and lost when it unmounts. */
module FormDialog {
  import opened Common

  datatype Dialog<F> = Dialog(open: bool, form: Option<F>)

  datatype DialogEvent<F> = Open | Close | Edit(edited: F)

  /** Opening a closed dialog mounts a fresh form holding `initial`;
      closing unmounts it; typing reaches only a mounted form. */
  function Step<F>(d: Dialog<F>, e: DialogEvent<F>, initial: F): (r: Dialog<F>)
    ensures r.open <==> (e.Open? || (d.open && !e.Close?))
    ensures e.Open? && !d.open ==> r.form == Some(initial)
    ensures e.Open? && d.open ==> r == d
    ensures e.Close? ==> r.form.None?
    ensures e.Edit? ==> r == if d.open then d.(form := Some(e.edited)) else d
  {
    match e
    case Open => if d.open then d else Dialog(true, Some(initial))
    case Close => Dialog(false, None)
    case Edit(f) => if d.open then d.(form := Some(f)) else d
  }

  function Run<F>(d: Dialog<F>, events: seq<DialogEvent<F>>, initial: F): Dialog<F>
    decreases |events|
  {
    if events == [] then d else Run(Step(d, events[0], initial), events[1..], initial)
  }

  /** A form exists exactly while the dialog is open. */
  predicate Mounted<F>(d: Dialog<F>) {
    d.open <==> d.form.Some?
  }

  /** From a closed dialog, any run of events keeps a form exactly while open. */
  lemma {:induction false} RunKeepsMounted<F>(d: Dialog<F>, events: seq<DialogEvent<F>>, initial: F)
    requires Mounted(d)
    ensures Mounted(Run(d, events, initial))
    decreases |events|
  {
    if events != [] {
      RunKeepsMounted(Step(d, events[0], initial), events[1..], initial);
    }
  }

  /** Whatever was typed before, closing and reopening shows the initial
      values again. */
  lemma ReopenReinitialises<F>(d: Dialog<F>, events: seq<DialogEvent<F>>, initial: F)
    ensures var typed := Run(d, events, initial);
            Step(Step(typed, Close, initial), Open, initial).form == Some(initial)
  {
  }
}

/** The add/edit card form (`src/components/Dialogs/CardDialog.tsx`). */
module CardDialog {
  import opened Common
  import opened Types
  import opened Text
  import UiSlice

  /** The form's fields, which are also the shape handed to `onSave`. */
  datatype CardForm = CardForm(name: string, description: string, coverUrl: string, stackId: string)

  /** `card?.stackId ?? initialStackId ?? stacks[0]?.id ?? ""`. */
  function InitialStackId(card: Option<Card>, initialStackId: Option<string>, stacks: seq<Stack>): (r: string)
    ensures card.Some? ==> r == card.value.stackId
    ensures card.None? && initialStackId.Some? ==> r == initialStackId.value
    ensures card.None? && initialStackId.None? ==> r == (if stacks == [] then "" else stacks[0].id)
  {
    match card
    case Some(c) => c.stackId
    case None =>
      match initialStackId
      case Some(id) => id
      case None => if |stacks| > 0 then stacks[0].id else ""
  }

  /** The form's initial values: the edited card's fields, else empty. */
  function InitialForm(card: Option<Card>, initialStackId: Option<string>, stacks: seq<Stack>): (f: CardForm)
    ensures card.Some? ==> && f.name == card.value.name && f.coverUrl == card.value.coverUrl
                           && f.description == (if card.value.description.Some? then card.value.description.value else "")
    ensures card.None? ==> f.name == "" && f.description == "" && f.coverUrl == ""
    ensures f.stackId == InitialStackId(card, initialStackId, stacks)
  {
    match card
    case Some(c) => CardForm(c.name, c.description.GetOr(""), c.coverUrl, InitialStackId(card, initialStackId, stacks))
    case None => CardForm("", "", "", InitialStackId(card, initialStackId, stacks))
  }

  /** Adding a card to a fresh dock with no active stack lands in the first stack. */
  lemma NewCardDefaultsToFirstStack(stacks: seq<Stack>)
    requires |stacks| > 0
    ensures InitialForm(None, None, stacks).stackId == stacks[0].id
  {
  }

  /** `Boolean(card)`: the dialog edits a card exactly when one is given. */
  predicate IsEditMode(card: Option<Card>) {
    card.Some?
  }

  /** The dialog's title. */
  function Title(card: Option<Card>): (t: string)
    ensures t == "Edit Card" <==> IsEditMode(card)
    ensures t == "Add Card" <==> !IsEditMode(card)
  {
    if card.Some? then "Edit Card" else "Add Card"
  }

  /** The dock opens the dialog with the card to edit or with none to add
      one (`openCardDialog`), and the dialog shows the matching title. */
  lemma OpenedDialogTitle(ui: UiSlice.UiState, card: Card)
    ensures var edit := UiSlice.Reduce(ui, UiSlice.OpenCardDialog(Some(card)));
            edit.cardDialogOpen && Title(edit.editingCard) == "Edit Card"
    ensures var add := UiSlice.Reduce(ui, UiSlice.OpenCardDialog(None));
            add.cardDialogOpen && Title(add.editingCard) == "Add Card"
  {
  }

  /** Save is enabled when the name has a non-blank character and a cover is set. */
  predicate CanSave(f: CardForm) {
    Trim(f.name) != "" && f.coverUrl != ""
  }

  /** `handleSave`'s payload: name and description trimmed, cover and stack as entered. */
  function Save(f: CardForm): (d: CardForm)
    ensures d.coverUrl == f.coverUrl && d.stackId == f.stackId
    ensures TrimmedFrom(d.name, f.name) && TrimmedFrom(d.description, f.description)
  {
    CardForm(Trim(f.name), Trim(f.description), f.coverUrl, f.stackId)
  }

  /** What a saved form carries: a non-blank name and a cover, and saving
      the payload again changes nothing. */
  lemma SavedFormIsClean(f: CardForm)
    requires CanSave(f)
    ensures Save(f).name != "" && Save(f).coverUrl != ""
    ensures Save(Save(f)) == Save(f)
    ensures CanSave(Save(f))
  {
    TrimIdempotent(f.name);
    TrimIdempotent(f.description);
  }

  /** A name of blanks alone cannot be saved. */
  lemma BlankNameCannotSave(f: CardForm)
    requires forall k :: 0 <= k < |f.name| ==> IsSpace(f.name[k])
    ensures !CanSave(f)
  {
  }

  /** Editing starts from the card's own values and can be saved as is when
      the card has a non-blank name and a cover; adding starts blank and
      cannot be saved until a name and a cover are entered. */
  lemma EditModeStartsFromCard(card: Option<Card>, initialStackId: Option<string>, stacks: seq<Stack>)
    ensures var f := InitialForm(card, initialStackId, stacks);
            && (IsEditMode(card) ==> f.name == card.value.name && f.coverUrl == card.value.coverUrl)
            && (IsEditMode(card) && Trim(card.value.name) != "" && card.value.coverUrl != "" ==> CanSave(f))
            && (!IsEditMode(card) ==> !CanSave(f))
  {
  }
}

/** The create/edit stack form (`src/components/Dialogs/StackDialog.tsx`). */
module StackDialog {
  import opened Common
  import opened Types
  import opened Text
  import UiSlice
  import FormDialog

  /** `GRADIENTS[0]` of `src/constants/index.ts`. */
  const FirstGradient: string := "linear-gradient(135deg, #667eea 0%, #764ba2 100%)"

  datatype StackForm = StackForm(name: string, selectedGradient: string)

  /** The edited stack's name and cover, else an empty name and the first gradient. */
  function InitialForm(stack: Option<Stack>): (f: StackForm)
    ensures stack.Some? ==> f == StackForm(stack.value.name, stack.value.coverUrl)
    ensures stack.None? ==> f.name == "" && f.selectedGradient == FirstGradient
  {
    match stack
    case Some(s) => StackForm(s.name, s.coverUrl)
    case None => StackForm("", FirstGradient)
  }

  /** `Boolean(stack)`: the dialog edits a stack exactly when one is given. */
  predicate IsEditMode(stack: Option<Stack>) {
    stack.Some?
  }

  /** The dialog's title. */
  function Title(stack: Option<Stack>): (t: string)
    ensures t == "Edit Stack" <==> IsEditMode(stack)
    ensures t == "Create Stack" <==> !IsEditMode(stack)
  {
    if stack.Some? then "Edit Stack" else "Create Stack"
  }

  /** Opening the dialog with a stack (`openStackDialog`) shows the edit
      title; opening it with none, as the dock's add button does, shows the
      create title. */
  lemma OpenedDialogTitle(ui: UiSlice.UiState, stack: Stack)
    ensures var edit := UiSlice.Reduce(ui, UiSlice.OpenStackDialog(Some(stack)));
            edit.stackDialogOpen && Title(edit.editingStack) == "Edit Stack"
    ensures var create := UiSlice.Reduce(ui, UiSlice.OpenStackDialog(None));
            create.stackDialogOpen && Title(create.editingStack) == "Create Stack"
  {
  }

  /** Save is enabled when the name has a non-blank character. */
  predicate CanSave(f: StackForm) {
    Trim(f.name) != ""
  }

  /** `handleSave`'s arguments: the trimmed name and the selected cover. */
  function Save(f: StackForm): (r: (string, string))
    ensures r.1 == f.selectedGradient
    ensures TrimmedFrom(r.0, f.name)
  {
    (Trim(f.name), f.selectedGradient)
  }

  /** A savable form yields a non-blank name, and re-saving it changes nothing. */
  lemma SavedStackIsClean(f: StackForm)
    requires CanSave(f)
    ensures Save(f).0 != ""
    ensures Save(StackForm(Save(f).0, Save(f).1)) == Save(f)
  {
    TrimIdempotent(f.name);
  }

  /** A new stack starts with a cover, so its form needs only a name. */
  lemma NewStackHasCover()
    ensures InitialForm(None).selectedGradient != ""
    ensures !CanSave(InitialForm(None))
  {
  }

  /** Reopening the dialog for a stack shows that stack's name and cover
      again, whatever was typed into the form before. */
  lemma ReopenShowsStack(d: FormDialog.Dialog<StackForm>, events: seq<FormDialog.DialogEvent<StackForm>>, stack: Stack)
    ensures var init := InitialForm(Some(stack));
            var typed := FormDialog.Run(d, events, init);
            FormDialog.Step(FormDialog.Step(typed, FormDialog.Close, init), FormDialog.Open, init).form
              == Some(StackForm(stack.name, stack.coverUrl))
  {
  }
}
