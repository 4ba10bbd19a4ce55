/** The add-intern form of `src/components/AddInternForm.tsx`, the one the
    management page shows: five required fields, no e-mail check, and a
    single insert whose unique-violation error is reported as a duplicate. */
module AddInternForm {
  import opened Common
  import opened Rows
  import opened InternStore
  import InternRegistration

  /** The form fields, as typed. */
  datatype InternFormData = InternFormData(internCode: string, name: string, email: string, department: string,
                                           phone: string, startDate: string, endDate: string)

  const BlankForm: InternFormData := InternFormData("", "", "", "", "", "", "")

  /** `!formData.intern_id || !formData.name || !formData.email ||
      !formData.department || !formData.start_date` */
  predicate MissingRequired(f: InternFormData) {
    f.internCode == "" || f.name == "" || f.email == "" || f.department == "" || f.startDate == ""
  }

  /** `value ?? ''`: how a stored optional column is shown in a text field. */
  function OrEmpty(o: Option<string>): string {
    if o.Some? then o.value else ""
  }

  /** `internData`, with the id the database assigns. */
  function InternData(f: InternFormData, newId: string): (row: InternRow)
    ensures row.id == newId && row.internCode == f.internCode && row.name == f.name
    ensures row.email == f.email && row.department == f.department && row.startDate == f.startDate
    ensures row.phone == NullIfEmpty(f.phone) && row.endDate == NullIfEmpty(f.endDate)
    ensures row.isActive
  {
    InternRow(newId, f.internCode, f.name, f.email, f.department,
              NullIfEmpty(f.phone), f.startDate, NullIfEmpty(f.endDate), true)
  }

  /** The form can be read back from the inserted row: an empty phone or end
      date stored as null shows as empty again. */
  lemma InternDataRoundTrip(f: InternFormData, newId: string)
    ensures var row := InternData(f, newId);
            InternFormData(row.internCode, row.name, row.email, row.department,
                           OrEmpty(row.phone), row.startDate, OrEmpty(row.endDate)) == f
  {
  }

  /** Unlike the form of `AddInternForm.js`, this form takes an address the
      e-mail pattern refuses. */
  lemma NoEmailCheck()
    ensures var f := InternFormData("DMRC001", "Ravi", "ravi@dmrc", "Operations", "", "2024-06-01", "");
            !MissingRequired(f) && !InternRegistration.ValidEmail(f.email)
  {
    InternRegistration.SampleAddressRejected();
  }

  datatype AddOutcome = MissingFields | Duplicate | Failed | Added

  class NewInternForm {
    const directory: InternDirectory
    var formData: InternFormData

    constructor (directory: InternDirectory)
      ensures this.directory == directory && formData == BlankForm
    {
      this.directory := directory;
      formData := BlankForm;
    }

    method Edit(f: InternFormData)
      modifies this
      ensures formData == f
    {
      formData := f;
    }

    /** `handleSubmit`: refuse a form with a required field empty; insert
        the row; report error 23505 as a duplicate and any other error as a
        failure; on success reset every field. */
    method Submit(newId: string, storeFails: bool) returns (outcome: AddOutcome)
      requires directory.Valid()
      modifies this, directory
      ensures directory.Valid()
      ensures MissingRequired(old(formData)) <==> outcome == MissingFields
      ensures !MissingRequired(old(formData)) && storeFails ==> outcome == Failed
      ensures !MissingRequired(old(formData)) && !storeFails ==>
                (outcome == Duplicate <==> Clashes(old(directory.rows), InternData(old(formData), newId)))
      ensures (!MissingRequired(old(formData)) && !storeFails
               && !Clashes(old(directory.rows), InternData(old(formData), newId))) ==> outcome == Added
      ensures outcome == Added ==>
                directory.rows == old(directory.rows) + [InternData(old(formData), newId)]
                && formData == BlankForm
      ensures outcome != Added ==> directory.rows == old(directory.rows) && formData == old(formData)
    {
      if MissingRequired(formData) {
        return MissingFields;
      }
      var res := directory.Insert(InternData(formData, newId), storeFails);
      if res == UniqueViolation {
        return Duplicate;
      } else if res == InsertError {
        return Failed;
      }
      formData := BlankForm;
      outcome := Added;
    }
  }
}
