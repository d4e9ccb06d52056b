/**
 * The add-student form: its four fields, the country select, and the submit
 * handler that hands a new record to the page and resets the form.
 */
module AddStudent {
  import opened Wrappers
  import opened Countries
  import EditStudent

  /** The ten countries the form offers; the United Kingdom is listed under "UK" */
  const AddCountryOptions: seq<CountryOption> := [
    CountryOption("US", "🇺🇸", "United States"),
    CountryOption("NL", "🇳🇱", "Netherlands"),
    CountryOption("AE", "🇦🇪", "United Arab Emirates"),
    CountryOption("UK", "🇬🇧", "United Kingdom"),
    CountryOption("CA", "🇨🇦", "Canada"),
    CountryOption("AU", "🇦🇺", "Australia"),
    CountryOption("DE", "🇩🇪", "Germany"),
    CountryOption("FR", "🇫🇷", "France"),
    CountryOption("IN", "🇮🇳", "India"),
    CountryOption("JP", "🇯🇵", "Japan")
  ]

  /** The form state: the selected country is a whole table entry */
  datatype AddForm = AddForm(name: string, email: string, country: CountryOption, notes: string)

  /** The initial state, and the state after a successful submit */
  const EmptyForm := AddForm("", "", AddCountryOptions[0], "")

  /** What `onAdd` receives: a student without id, messages, last-message date and status */
  datatype NewStudent = NewStudent(name: string, email: string, country: string, countryFlag: string, tags: seq<string>)

  datatype SubmitResult = SubmitResult(added: Option<NewStudent>, form: AddForm)

  /** The form's country is one of the offered entries */
  predicate ValidForm(f: AddForm) {
    f.country in AddCountryOptions
  }

  /** `handleSubmit`: with a name and an e-mail the record is handed over, the notes becoming
      the only tag, and the form is reset; otherwise nothing happens */
  function HandleSubmit(f: AddForm): (r: SubmitResult)
    ensures r.added.Some? <==> f.name != "" && f.email != ""
    ensures r.added.None? ==> r.form == f
    ensures r.added.Some? ==> r.form == EmptyForm
    ensures r.added.Some? ==>
              r.added.value.name == f.name && r.added.value.email == f.email
              && r.added.value.country == f.country.code && r.added.value.countryFlag == f.country.flag
    ensures r.added.Some? ==> r.added.value.tags == if f.notes == "" then [] else [f.notes]
  {
    if f.name != "" && f.email != "" then
      var tags := if f.notes != "" then [f.notes] else [];
      SubmitResult(Some(NewStudent(f.name, f.email, f.country.code, f.country.flag, tags)), EmptyForm)
    else SubmitResult(None, f)
  }

  /** The select's `onChange`: a known code selects its entry, an unknown one changes nothing */
  function SelectCountry(f: AddForm, code: string): (r: AddForm)
    ensures r.name == f.name && r.email == f.email && r.notes == f.notes
    ensures (forall k :: 0 <= k < |AddCountryOptions| ==> AddCountryOptions[k].code != code) ==> r == f
    ensures r.country.code == code || r == f
  {
    match FindCountry(AddCountryOptions, code)
    case Some(c) => f.(country := c)
    case None => f
  }

  /** No two entries of the table share a code */
  lemma AddCodesDistinct()
    ensures CodesDistinct(AddCountryOptions)
  {
  }

  /** Selecting a country keeps the selection an entry of the table */
  lemma SelectKeepsValid(f: AddForm, code: string)
    requires ValidForm(f)
    ensures ValidForm(SelectCountry(f, code))
  {
  }

  /** Any code of the table selects exactly its own entry */
  lemma SelectOffered(f: AddForm, k: nat)
    requires k < |AddCountryOptions|
    ensures SelectCountry(f, AddCountryOptions[k].code).country == AddCountryOptions[k]
  {
    AddCodesDistinct();
    FindDistinct(AddCountryOptions, k);
  }

  /** Submitting keeps the form valid, and a handed-over record's code and flag come from one
      and the same table entry */
  lemma SubmitKeepsValid(f: AddForm)
    requires ValidForm(f)
    ensures ValidForm(HandleSubmit(f).form)
    ensures HandleSubmit(f).added.Some? ==>
              CountryOption(HandleSubmit(f).added.value.country, HandleSubmit(f).added.value.countryFlag, f.country.name)
              in AddCountryOptions
  {
  }

  /** Submitting twice hands over at most one record: the reset form is rejected */
  lemma SubmitOnce(f: AddForm)
    ensures HandleSubmit(f).added.Some? ==> HandleSubmit(HandleSubmit(f).form).added.None?
  {
  }

  /** The two forms disagree on the United Kingdom: the add form stores the code "UK" with
      the British flag, which the edit form does not know, so saving such a student unchanged
      replaces the flag by the globe */
  lemma UnitedKingdomLosesFlag(name: string, email: string, tags: seq<string>)
    ensures AddCountryOptions[3].code == "UK" && AddCountryOptions[3].flag == "🇬🇧"
    ensures EditStudent.HandleSave(name, email, "UK", tags).countryFlag == EditStudent.UnknownFlag
  {
    UnitedKingdomEntry();
    EditStudent.UnitedKingdomNotListed();
    EditStudent.UnlistedGetsGlobe("UK");
  }

  /** The add form lists the United Kingdom as its fourth entry */
  lemma UnitedKingdomEntry()
    ensures AddCountryOptions[3] == CountryOption("UK", "🇬🇧", "United Kingdom")
  {
  }

  /** Every other code of the add form keeps its flag through the edit form */
  lemma SharedCodesKeepFlag(k: nat)
    requires k < |AddCountryOptions| && k != 3
    ensures EditStudent.FlagFor(AddCountryOptions[k].code) == AddCountryOptions[k].flag
  {
    assert AddCountryOptions[k].code == EditStudent.EditCountryOptions[k].code;
  }
}
