/** The state of the inventory page and the handlers that change it.

    The page keeps the mirror of the store (supplier to products), the
    selection table, the status message, the flag that disables every edit
    field while an update is in flight, whether the add-product dialog is
    open and which supplier it was opened for. The remote store is not
    called: each handler receives the store's answer as a parameter. */
module AppState {
  import opened Lists
  import opened Schema
  import opened Mirror
  import Selection
  import opened BatchDelete

  const CreatedMessage := "Product created successfully!"
  const CreateFailedMessage := "Failed to create product."
  const UpdateFailedMessage := "Failed to update product."
  const DeletedMessage := "Products deleted successfully!"
  const DeleteFailedMessage := "Failed to delete product."

  /** The confirmation shown after an update of field `f`. */
  function UpdatedMessage(f: Field): string {
    "Updated " + FieldName(f) + " successfully!"
  }

  /** The key the create updater files a new product under:
      `String(selectedSupplier?.id)`, which is "undefined" when no supplier
      was chosen. */
  function SupplierKey(chosen: Option<string>): string {
    match chosen
    case Some(id) => id
    case None => "undefined"
  }

  /** A field-level update request: the product identifier and one field. */
  datatype UpdateRequest = UpdateRequest(id: string, field: Field, value: FieldValue)

  /** The attributes the product table renders as edit fields. */
  predicate Editable(f: Field) {
    !(f.Name? || f.Dose?)
  }

  /** The guard of every edit field: an update is sent only when the value
      committed differs from the value the rendered product holds. */
  predicate ShouldUpdate(p: Product, f: Field, v: FieldValue) {
    v != GetField(p, f)
  }

  /** Committing the value a product already holds sends nothing. */
  lemma UnchangedValueSendsNothing(p: Product, f: Field)
    ensures !ShouldUpdate(p, f, GetField(p, f))
  {
  }

  /** Once the store has applied an update, committing the same value
      against the returned record sends nothing; any other value of the
      field's kind is sent. */
  lemma UpdatedRecordAgreesWithGuard(p: Product, f: Field, v: FieldValue, w: FieldValue)
    requires Fits(f, v)
    ensures !ShouldUpdate(SetField(p, f, v), f, v)
    ensures w != v ==> ShouldUpdate(SetField(p, f, v), f, w)
  {
  }

  /** An edit field rendered from a record that lacks the attribute sends
      an update on every commit, even of a value the user never typed. */
  lemma AbsentFieldAlwaysSent(p: Product, f: Field, v: FieldValue)
    requires Fits(f, v)
    requires GetField(p, f) == Missing
    ensures ShouldUpdate(p, f, v)
  {
  }

  function Requests(r: Option<UpdateRequest>): seq<UpdateRequest> {
    match r
    case Some(req) => [req]
    case None => []
  }

  class App {
    var mirror: Table
    var selected: Selection.Selected
    var message: string
    var updating: bool
    var dialogOpen: bool
    var selectedSupplier: Option<string>

    /** The state on first render, before any fetch has completed. */
    constructor ()
      ensures mirror == map[] && selected == map[]
      ensures message == "" && !updating && !dialogOpen && selectedSupplier == None
    {
      mirror := map[];
      selected := map[];
      message := "";
      updating := false;
      dialogOpen := false;
      selectedSupplier := None;
    }

    /** A click on product row (`supplierId`, `productId`); `onField` says the
        click landed on an input or text area inside the row. */
    method HandleClick(onField: bool, supplierId: string, productId: string)
      modifies this`selected
      ensures selected == Selection.Click(old(selected), onField, supplierId, productId)
    {
      if onField {
        return;
      }
      var current := Selection.Get(selected, supplierId);
      var next := Selection.Toggle(current, productId);
      selected := selected[supplierId := next];
    }

    /** The "Add product" button of a supplier's table. */
    method OpenAddDialog(supplierId: string)
      modifies this`dialogOpen, this`selectedSupplier
      ensures dialogOpen && selectedSupplier == Some(supplierId)
    {
      dialogOpen := true;
      selectedSupplier := Some(supplierId);
    }

    /** The dialog's own close action. */
    method CloseDialog()
      modifies this`dialogOpen
      ensures !dialogOpen
    {
      dialogOpen := false;
    }

    /** The snackbar's close action. */
    method DismissMessage()
      modifies this`message
      ensures message == ""
    {
      message := "";
    }

    /** Submitting the add-product form, given the store's answer to the
        create request. A returned record is appended under the chosen
        supplier's key. Whatever the answer, the `finally` block then sets
        the success message and closes the dialog, so the failure message
        set in the `catch` block never remains. */
    method HandleSubmit(outcome: StoreResult<Product>)
      modifies this`mirror, this`message, this`dialogOpen
      ensures mirror == if outcome.Returned?
                        then AppendCreated(old(mirror), SupplierKey(selectedSupplier), outcome.data)
                        else old(mirror)
      ensures message == CreatedMessage
      ensures !dialogOpen
    {
      match outcome {
        case Failed =>
          message := CreateFailedMessage;
        case NoData =>
        case Returned(created) =>
          mirror := AppendCreated(mirror, SupplierKey(selectedSupplier), created);
      }
      message := CreatedMessage;
      dialogOpen := false;
    }

    /** The create handler with the message the two branches evidently
        intend: the failure message survives a failed request. */
    method HandleSubmitReported(outcome: StoreResult<Product>)
      modifies this`mirror, this`message, this`dialogOpen
      ensures mirror == if outcome.Returned?
                        then AppendCreated(old(mirror), SupplierKey(selectedSupplier), outcome.data)
                        else old(mirror)
      ensures message == if outcome.Failed? then CreateFailedMessage else CreatedMessage
      ensures !dialogOpen
    {
      match outcome {
        case Failed =>
          message := CreateFailedMessage;
        case NoData =>
          message := CreatedMessage;
        case Returned(created) =>
          mirror := AppendCreated(mirror, SupplierKey(selectedSupplier), created);
          message := CreatedMessage;
      }
      dialogOpen := false;
    }

    /** The part of the update handler that runs before the request is
        answered: every edit field is disabled and the request sent. */
    method BeginUpdate(id: string, f: Field, v: FieldValue) returns (req: UpdateRequest)
      modifies this`updating
      ensures updating
      ensures req == UpdateRequest(id, f, v)
    {
      updating := true;
      req := UpdateRequest(id, f, v);
    }

    /** The part of the update handler that runs once the store answers
        `req`: a returned record replaces the records with its identifier in
        its supplier's list, then the `finally` block sets the confirmation
        for the field and enables the edit fields again, whatever the
        answer. */
    method FinishUpdate(req: UpdateRequest, outcome: StoreResult<Product>)
      modifies this`mirror, this`message, this`updating
      ensures mirror == if outcome.Returned? then ReplaceInTable(old(mirror), outcome.data) else old(mirror)
      ensures message == UpdatedMessage(req.field)
      ensures !updating
    {
      match outcome {
        case Failed =>
          message := UpdateFailedMessage;
        case NoData =>
        case Returned(updated) =>
          mirror := ReplaceInTable(mirror, updated);
      }
      message := UpdatedMessage(req.field);
      updating := false;
    }

    /** The answer handling with the message the two branches evidently
        intend: the failure message survives a failed request. */
    method FinishUpdateReported(req: UpdateRequest, outcome: StoreResult<Product>)
      modifies this`mirror, this`message, this`updating
      ensures mirror == if outcome.Returned? then ReplaceInTable(old(mirror), outcome.data) else old(mirror)
      ensures message == if outcome.Failed? then UpdateFailedMessage else UpdatedMessage(req.field)
      ensures !updating
    {
      match outcome {
        case Failed =>
          message := UpdateFailedMessage;
        case NoData =>
          message := UpdatedMessage(req.field);
        case Returned(updated) =>
          mirror := ReplaceInTable(mirror, updated);
          message := UpdatedMessage(req.field);
      }
      updating := false;
    }

    /** A whole update call whose request the store answers with `outcome`
        before anything else happens. */
    method UpdateProduct(id: string, f: Field, v: FieldValue, outcome: StoreResult<Product>)
      modifies this`mirror, this`message, this`updating
      ensures mirror == if outcome.Returned? then ReplaceInTable(old(mirror), outcome.data) else old(mirror)
      ensures message == UpdatedMessage(f)
      ensures !updating
    {
      var req := BeginUpdate(id, f, v);
      FinishUpdate(req, outcome);
    }

    /** Leaving edit field `f` of the row rendered from `p` with value `v`
        (the input's text, converted to a number for a numeric field): an
        update is started only when `v` differs from the field's value. */
    method OnBlur(p: Product, f: Field, v: FieldValue) returns (req: Option<UpdateRequest>)
      requires Editable(f) && Fits(f, v)
      modifies this`updating
      ensures req.Some? <==> ShouldUpdate(p, f, v)
      ensures req.Some? ==> req.value == UpdateRequest(p.id, f, v) && updating
      ensures req.None? ==> updating == old(updating)
    {
      if ShouldUpdate(p, f, v) {
        var r := BeginUpdate(p.id, f, v);
        req := Some(r);
      } else {
        req := None;
      }
    }

    /** A key press in an edit field of the row rendered from `p`. On Enter
        the handler runs the same guard and starts an update, then blurs the
        field, which runs the blur handler against the same rendered `p`: a
        changed value is sent twice. */
    method OnKeyDown(p: Product, f: Field, v: FieldValue, enter: bool) returns (reqs: seq<UpdateRequest>)
      requires Editable(f) && Fits(f, v)
      modifies this`updating
      ensures reqs == if enter && ShouldUpdate(p, f, v)
                      then [UpdateRequest(p.id, f, v), UpdateRequest(p.id, f, v)] else []
      ensures updating == (old(updating) || |reqs| > 0)
    {
      reqs := [];
      if enter {
        var first := OnBlur(p, f, v);
        var second := OnBlur(p, f, v);
        reqs := Requests(first) + Requests(second);
      }
    }

    /** The Enter handling the guard evidently intends: one commit, so a
        changed value is sent once. */
    method OnKeyDownOnce(p: Product, f: Field, v: FieldValue, enter: bool) returns (reqs: seq<UpdateRequest>)
      requires Editable(f) && Fits(f, v)
      modifies this`updating
      ensures reqs == if enter && ShouldUpdate(p, f, v) then [UpdateRequest(p.id, f, v)] else []
      ensures updating == (old(updating) || |reqs| > 0)
    {
      reqs := [];
      if enter {
        var req := OnBlur(p, f, v);
        reqs := Requests(req);
      }
    }

    /** Deleting the selected products: entries in order, identifiers in
        order, one request at a time; `outcome(t)` is the store's answer to
        the `t`-th request. Every confirmed delete filters the identifier out
        of the supplier's list; the first failure sets the failure message
        and ends the handler, keeping the removals already made. The
        selection is not in the frame: it is left as it was. */
    method HandleDelete(entries: seq<Entry>, outcome: nat -> bool) returns (attempts: nat)
      requires forall e :: e in entries ==> e.0 in mirror
      modifies this`mirror, this`message
      ensures var run := RunBatch(old(mirror), entries, outcome);
              mirror == run.table && attempts == run.attempts &&
              message == if run.failed then DeleteFailedMessage else DeletedMessage
    {
      ghost var m0 := mirror;
      RunBatchIsContinue(m0, entries, outcome);
      attempts := 0;
      var i := 0;
      while i < |entries|
        invariant i <= |entries|
        invariant mirror.Keys == m0.Keys
        invariant Continue(mirror, entries, outcome, i, 0, attempts) == Continue(m0, entries, outcome, 0, 0, 0)
      {
        var supplierId := entries[i].0;
        var productIds := entries[i].1;
        assert entries[i] in entries;
        var j := 0;
        while j < |productIds|
          invariant j <= |productIds|
          invariant mirror.Keys == m0.Keys
          invariant Continue(mirror, entries, outcome, i, j, attempts) == Continue(m0, entries, outcome, 0, 0, 0)
        {
          if !outcome(attempts) {
            message := DeleteFailedMessage;
            attempts := attempts + 1;
            return;
          }
          mirror := RemoveProduct(mirror, supplierId, productIds[j]);
          attempts := attempts + 1;
          j := j + 1;
        }
        i := i + 1;
      }
      message := DeletedMessage;
    }

    /** The delete button of supplier `supplierId`'s table, enabled while
        that supplier has a selected row. It hands the whole selection table
        to the delete handler, so the rows selected under every supplier are
        deleted; `order` is the order in which the table's keys are
        enumerated, each key once. */
    method DeleteButton(supplierId: string, order: seq<string>, outcome: nat -> bool) returns (attempts: nat)
      requires |Selection.Get(selected, supplierId)| > 0
      requires forall k :: k in order <==> k in selected
      requires NoDup(order)
      requires selected.Keys <= mirror.Keys
      modifies this`mirror, this`message
      ensures var run := RunBatch(old(mirror), Entries(selected, order), outcome);
              mirror == run.table && attempts == run.attempts &&
              message == if run.failed then DeleteFailedMessage else DeletedMessage
    {
      attempts := HandleDelete(Entries(selected, order), outcome);
    }
  }

  // Witnesses of the discrepancies between the handlers as written and
  // what their branches evidently intend.

  /** A create the store rejects leaves the success message on screen. */
  method FailedCreateReportsSuccess() returns (shown: string)
    ensures shown == CreatedMessage && shown != CreateFailedMessage
  {
    var app := new App();
    app.HandleSubmit(Failed);
    shown := app.message;
  }

  /** With the corrected create handler the failure message remains. */
  method FailedCreateReported() returns (shown: string)
    ensures shown == CreateFailedMessage
  {
    var app := new App();
    app.HandleSubmitReported(Failed);
    shown := app.message;
  }

  /** An update the store rejects reports the field as updated. */
  method FailedUpdateReportsSuccess(id: string, f: Field, v: FieldValue) returns (shown: string)
    ensures shown == UpdatedMessage(f) && shown != UpdateFailedMessage
  {
    var app := new App();
    app.UpdateProduct(id, f, v, Failed);
    shown := app.message;
  }

  /** With the corrected answer handling the failure message remains. */
  method FailedUpdateReported(id: string, f: Field, v: FieldValue) returns (shown: string)
    ensures shown == UpdateFailedMessage
  {
    var app := new App();
    var req := app.BeginUpdate(id, f, v);
    app.FinishUpdateReported(req, Failed);
    shown := app.message;
  }

  /** Enter in an edit field holding a changed value sends the same update
      request twice. */
  method EnterSendsTwice(p: Product, f: Field, v: FieldValue) returns (reqs: seq<UpdateRequest>)
    requires Editable(f) && Fits(f, v) && ShouldUpdate(p, f, v)
    ensures |reqs| == 2 && reqs[0] == reqs[1] == UpdateRequest(p.id, f, v)
  {
    var app := new App();
    reqs := app.OnKeyDown(p, f, v, true);
  }

  /** With the corrected key handler the request is sent once. */
  method EnterSendsOnce(p: Product, f: Field, v: FieldValue) returns (reqs: seq<UpdateRequest>)
    requires Editable(f) && Fits(f, v) && ShouldUpdate(p, f, v)
    ensures reqs == [UpdateRequest(p.id, f, v)]
  {
    var app := new App();
    reqs := app.OnKeyDownOnce(p, f, v, true);
  }
}
