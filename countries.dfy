/**
 * The country tables of the two student modals: each entry pairs an ISO-like
 * code with a flag and a display name, and is looked up by code with `find`.
 */
module Countries {
  import opened Wrappers

  datatype CountryOption = CountryOption(code: string, flag: string, name: string)

  /** `options.find(c => c.code === code)`: the first entry with that code */
  function FindCountry(options: seq<CountryOption>, code: string): (r: Option<CountryOption>)
    ensures r.Some? ==> r.value.code == code
    ensures r.Some? ==> exists k :: (0 <= k < |options| && options[k] == r.value
                                     && forall j :: 0 <= j < k ==> options[j].code != code)
    ensures r.None? <==> forall k :: 0 <= k < |options| ==> options[k].code != code
  {
    if options == [] then None
    else if options[0].code == code then Some(options[0])
    else
      var r := FindCountry(options[1..], code);
      if r.Some? then
        var k :| (0 <= k < |options[1..]| && options[1..][k] == r.value
                  && forall j :: 0 <= j < k ==> options[1..][j].code != code);
        assert options[k + 1] == r.value;
        assert forall j :: 1 <= j < k + 1 ==> options[j] == options[1..][j - 1];
        r
      else r
  }

  /** No two entries share a code */
  predicate CodesDistinct(options: seq<CountryOption>) {
    forall i, j :: 0 <= i < j < |options| ==> options[i].code != options[j].code
  }

  /** With distinct codes, `find` returns the one entry with the code */
  lemma FindDistinct(options: seq<CountryOption>, k: nat)
    requires CodesDistinct(options) && k < |options|
    ensures FindCountry(options, options[k].code) == Some(options[k])
  {
    var r := FindCountry(options, options[k].code);
    var i :| (0 <= i < |options| && options[i] == r.value
              && forall j :: 0 <= j < i ==> options[j].code != options[k].code);
    assert i == k;
  }
}
