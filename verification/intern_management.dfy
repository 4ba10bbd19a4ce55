/** The intern management page (`src/pages/InternManagement.tsx`): it lists
    the interns, shows or hides the add-intern form, and turns an intern's
    active flag on or off. Toggling the flag is the only change it makes to
    an existing intern. */
module InternManagement {
  import opened Common
  import opened Rows
  import opened InternStore
  import opened AddInternForm

  /** With unique ids, writing an intern's flag back over the toggled flag
      restores the table: toggling twice is no change. */
  lemma ToggleTwiceRestores(rows: seq<InternRow>, i: nat)
    requires i < |rows| && ColumnUnique(rows, IdColumn)
    ensures var once := WithActiveFlag(rows, rows[i].id, !rows[i].isActive);
            once[i].isActive == !rows[i].isActive
            && WithActiveFlag(once, once[i].id, !once[i].isActive) == rows
  {
    var once := WithActiveFlag(rows, rows[i].id, !rows[i].isActive);
    var twice := WithActiveFlag(once, once[i].id, !once[i].isActive);
    forall j | 0 <= j < |rows|
      ensures twice[j] == rows[j]
    {
      assert once[j].(isActive := rows[j].isActive) == rows[j];
      assert twice[j].(isActive := once[j].isActive) == once[j];
      if j != i {
        assert ColumnValue(rows[j], IdColumn) != ColumnValue(rows[i], IdColumn);
      }
    }
  }

  /** The toggle touches only the rows with the given id and no other column. */
  lemma ToggleTouchesOneIntern(rows: seq<InternRow>, id: string, flag: bool, j: nat)
    requires j < |rows| && rows[j].id != id
    ensures WithActiveFlag(rows, id, flag)[j] == rows[j]
  {
    var r := WithActiveFlag(rows, id, flag);
    assert r[j].(isActive := rows[j].isActive) == rows[j];
  }

  class ManagementPage {
    const directory: InternDirectory
    const form: NewInternForm
    /** The list as last fetched (`interns`). */
    var interns: seq<InternRow>
    var showAddForm: bool

    /** The form is mounted only while it is shown: a hidden form holds no
        typed data, so showing it again starts from empty fields. */
    ghost predicate Valid()
      reads this, directory, form
    {
      directory.Valid() && form.directory == directory
      && (!showAddForm ==> form.formData == BlankForm)
    }

    constructor (directory: InternDirectory, form: NewInternForm)
      requires directory.Valid() && form.directory == directory
      modifies form
      ensures Valid() && this.directory == directory && this.form == form
      ensures interns == directory.rows && !showAddForm
    {
      this.directory := directory;
      this.form := form;
      interns := directory.rows;
      showAddForm := false;
      new;
      form.formData := BlankForm;
    }

    /** The header button: `setShowAddForm(!showAddForm)`. Hiding unmounts
        the form and showing mounts a fresh one, so either way the fields
        are empty afterwards. */
    method ToggleAddForm()
      requires Valid()
      modifies this, form
      ensures Valid()
      ensures showAddForm == !old(showAddForm) && interns == old(interns)
      ensures form.formData == BlankForm
    {
      showAddForm := !showAddForm;
      form.formData := BlankForm;
    }

    /** The form's Cancel button: hide, and so discard, the form. */
    method CancelAddForm()
      requires Valid()
      modifies this, form
      ensures Valid()
      ensures !showAddForm && interns == old(interns) && form.formData == BlankForm
    {
      showAddForm := false;
      form.formData := BlankForm;
    }

    /** Typing into the shown form. */
    method EditForm(f: InternFormData)
      requires Valid() && showAddForm
      modifies form
      ensures Valid() && form.formData == f
    {
      form.Edit(f);
    }

    /** `handleInternAdded`: hide the form and fetch the list again. */
    method InternAdded()
      requires Valid()
      modifies this, form
      ensures Valid()
      ensures !showAddForm && interns == directory.rows && form.formData == BlankForm
    {
      showAddForm := false;
      form.formData := BlankForm;
      interns := directory.rows;
    }

    /** Submitting the shown form; on success the form calls back
        `handleInternAdded`. */
    method SubmitForm(newId: string, storeFails: bool) returns (outcome: AddOutcome)
      requires Valid() && showAddForm
      modifies this, form, directory
      ensures Valid()
      ensures MissingRequired(old(form.formData)) <==> outcome == MissingFields
      ensures !MissingRequired(old(form.formData)) && storeFails ==> outcome == Failed
      ensures !MissingRequired(old(form.formData)) && !storeFails ==>
                (outcome == Duplicate <==> Clashes(old(directory.rows), InternData(old(form.formData), newId)))
      ensures (!MissingRequired(old(form.formData)) && !storeFails
               && !Clashes(old(directory.rows), InternData(old(form.formData), newId))) ==> outcome == Added
      ensures outcome == Added ==> !showAddForm && interns == directory.rows && form.formData == BlankForm
                                   && directory.rows == old(directory.rows) + [InternData(old(form.formData), newId)]
      ensures outcome != Added ==> showAddForm && interns == old(interns) && form.formData == old(form.formData)
                                   && directory.rows == old(directory.rows)
    {
      outcome := form.Submit(newId, storeFails);
      if outcome == Added {
        InternAdded();
      }
    }

    /** `handleToggleActive(internId, currentStatus)`: write the negated flag
        to the row with that id and fetch the list again. */
    method ToggleActive(id: string, currentStatus: bool, writeFails: bool) returns (ok: bool)
      requires Valid()
      modifies this, directory
      ensures Valid() && showAddForm == old(showAddForm)
      ensures ok == !writeFails
      ensures ok ==> directory.rows == WithActiveFlag(old(directory.rows), id, !currentStatus)
                     && interns == directory.rows
      ensures !ok ==> directory.rows == old(directory.rows) && interns == old(interns)
      ensures |directory.rows| == |old(directory.rows)|
    {
      ok := directory.SetActive(id, !currentStatus, writeFails);
      if ok {
        interns := directory.rows;
      }
    }
  }

  /** Toggling an intern from the list twice (each time passing the flag the
      refreshed list shows) leaves the table as it was. */
  method ToggleFromListTwice(page: ManagementPage, i: nat)
    requires page.Valid() && i < |page.interns| && page.interns == page.directory.rows
    modifies page, page.directory
    ensures page.directory.rows == old(page.directory.rows)
  {
    var before := page.directory.rows;
    var id, shown := page.interns[i].id, page.interns[i].isActive;
    var ok1 := page.ToggleActive(id, shown, false);
    var ok2 := page.ToggleActive(id, page.interns[i].isActive, false);
    ToggleTwiceRestores(before, i);
  }
}
