/**
 * The edit-student form: the tag editor (add a trimmed tag once, remove a tag)
 * and the save handler, which looks the flag up from the selected country.
 */
module EditStudent {
  import opened Wrappers
  import opened Text
  import opened Seqs
  import opened Countries

  /** The fifteen countries the edit form offers; the United Kingdom is listed under "GB" */
  const EditCountryOptions: seq<CountryOption> := [
    CountryOption("US", "🇺🇸", "United States"),
    CountryOption("NL", "🇳🇱", "Netherlands"),
    CountryOption("AE", "🇦🇪", "UAE"),
    CountryOption("GB", "🇬🇧", "United Kingdom"),
    CountryOption("CA", "🇨🇦", "Canada"),
    CountryOption("AU", "🇦🇺", "Australia"),
    CountryOption("DE", "🇩🇪", "Germany"),
    CountryOption("FR", "🇫🇷", "France"),
    CountryOption("IN", "🇮🇳", "India"),
    CountryOption("JP", "🇯🇵", "Japan"),
    CountryOption("CN", "🇨🇳", "China"),
    CountryOption("BR", "🇧🇷", "Brazil"),
    CountryOption("MX", "🇲🇽", "Mexico"),
    CountryOption("ES", "🇪🇸", "Spain"),
    CountryOption("IT", "🇮🇹", "Italy")
  ]

  /** The globe shown for a country the table does not know */
  const UnknownFlag := "🌍"

  // ---------------------------------------------------------------------
  // Tags
  // ---------------------------------------------------------------------

  /** The tag list being edited and the text of the new-tag input */
  datatype TagEditor = TagEditor(tags: seq<string>, newTag: string)

  /** `handleAddTag`: a non-blank trimmed tag not yet present is appended and the input cleared;
      anything else leaves the editor as it is */
  function AddTag(e: TagEditor): (r: TagEditor)
    ensures Trim(e.newTag) != "" && Trim(e.newTag) !in e.tags ==>
              r.tags == e.tags + [Trim(e.newTag)] && r.newTag == ""
    ensures Trim(e.newTag) == "" || Trim(e.newTag) in e.tags ==> r == e
  {
    var t := Trim(e.newTag);
    if t != "" && t !in e.tags then TagEditor(e.tags + [t], "") else e
  }

  /** Adding never creates a duplicate */
  lemma AddTagKeepsDistinct(e: TagEditor)
    requires NoDuplicates(e.tags)
    ensures NoDuplicates(AddTag(e).tags)
  {
  }

  /** Pressing "add" (or Enter) twice adds once */
  lemma AddTagIdempotent(e: TagEditor)
    ensures AddTag(AddTag(e)) == AddTag(e)
  {
  }

  /** `handleRemoveTag`: every occurrence of the tag goes, the others stay in order and
      as often as they were */
  function RemoveTag(tags: seq<string>, tag: string): (r: seq<string>)
    ensures tag !in r
    ensures IsSubsequence(r, tags)
    ensures forall x :: x != tag ==> multiset(r)[x] == multiset(tags)[x]
  {
    var keep := (t: string) => t != tag;
    FilterIsSubsequence(tags, keep);
    forall x | x != tag
      ensures multiset(Filter(tags, keep))[x] == multiset(tags)[x]
    {
      FilterMultiset(tags, keep, x);
    }
    Filter(tags, keep)
  }

  /** Removing a tag just added gives back the tags as they were */
  lemma {:induction false} RemoveUndoesAdd(e: TagEditor)
    requires Trim(e.newTag) != "" && Trim(e.newTag) !in e.tags
    ensures RemoveTag(AddTag(e).tags, Trim(e.newTag)) == e.tags
  {
    var t := Trim(e.newTag);
    var keep := (x: string) => x != t;
    FilterAppend(e.tags, [t], keep);
    FilterAll(e.tags, keep);
    assert Filter([t], keep) == [];
  }

  /** Removing keeps the tags free of duplicates */
  lemma RemoveKeepsDistinct(tags: seq<string>, tag: string)
    requires NoDuplicates(tags)
    ensures NoDuplicates(RemoveTag(tags, tag))
  {
    FilterNoDuplicates(tags, (t: string) => t != tag);
  }

  // ---------------------------------------------------------------------
  // Saving
  // ---------------------------------------------------------------------

  /** `selectedCountry?.flag || "🌍"` */
  function FlagFor(code: string): (flag: string)
    ensures flag != ""
    ensures (forall k :: 0 <= k < |EditCountryOptions| ==> EditCountryOptions[k].code != code) ==> flag == UnknownFlag
    ensures forall k :: 0 <= k < |EditCountryOptions| && EditCountryOptions[k].code == code ==>
              flag == EditCountryOptions[k].flag
  {
    EditCodesDistinct();
    EditFlagsPresent();
    forall k | 0 <= k < |EditCountryOptions| && EditCountryOptions[k].code == code
      ensures FindCountry(EditCountryOptions, code) == Some(EditCountryOptions[k])
    {
      FindDistinct(EditCountryOptions, k);
    }
    match FindCountry(EditCountryOptions, code)
    case Some(c) => if c.flag != "" then c.flag else UnknownFlag
    case None => UnknownFlag
  }

  /** No two entries of the table share a code */
  lemma EditCodesDistinct()
    ensures CodesDistinct(EditCountryOptions)
  {
  }

  /** Every entry of the table has a flag */
  lemma EditFlagsPresent()
    ensures forall k :: 0 <= k < |EditCountryOptions| ==> EditCountryOptions[k].flag != ""
  {
  }

  /** The fields `onSave` receives */
  datatype StudentUpdates = StudentUpdates(name: string, email: string, country: string, countryFlag: string, tags: seq<string>)

  /** `handleSave`: the form's fields, with the flag of the selected country */
  function HandleSave(name: string, email: string, country: string, tags: seq<string>): (u: StudentUpdates)
    ensures u.name == name && u.email == email && u.country == country && u.tags == tags
    ensures u.countryFlag == FlagFor(country)
  {
    StudentUpdates(name, email, country, FlagFor(country), tags)
  }

  /** The edit form's table has no entry with the code "UK" */
  lemma UnitedKingdomNotListed()
    ensures FindCountry(EditCountryOptions, "UK") == None
  {
    assert forall k :: 0 <= k < |EditCountryOptions| ==> EditCountryOptions[k].code != "UK";
  }

  /** A code the table does not list is saved with the globe */
  lemma UnlistedGetsGlobe(code: string)
    requires FindCountry(EditCountryOptions, code) == None
    ensures FlagFor(code) == UnknownFlag
  {
  }
}
