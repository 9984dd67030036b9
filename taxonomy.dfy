/**
 * The eBird taxonomy records both enrichment scripts fetch, as an input
 * sequence, and the `find` both scripts run over it: the first record whose
 * `comName` equals the species' common name once both are lower-cased.
 */
module Taxonomy {
  import opened Wrappers
  import opened Ascii

  datatype TaxonEntry = TaxonEntry(
    comName: string,
    sciName: string,
    familyComName: string,
    order: string,
    extinct: bool)

  predicate SameName(entry: TaxonEntry, name: string) {
    Lower(entry.comName) == Lower(name)
  }

  /** `taxonomy.find(s => s.comName.toLowerCase() === name.toLowerCase())`, as an index. */
  function FirstMatch(taxonomy: seq<TaxonEntry>, name: string): (r: Option<nat>)
    ensures r.None? ==> forall i :: 0 <= i < |taxonomy| ==> !SameName(taxonomy[i], name)
    ensures r.Some? ==> r.value < |taxonomy| && SameName(taxonomy[r.value], name)
    ensures r.Some? ==> forall j :: 0 <= j < r.value ==> !SameName(taxonomy[j], name)
  {
    if taxonomy == [] then None
    else if SameName(taxonomy[0], name) then Some(0)
    else
      match FirstMatch(taxonomy[1..], name)
      case None => None
      case Some(i) => Some(i + 1)
  }

  /** The match depends on the name only through its lower-cased form. */
  lemma {:induction false} FirstMatchIgnoresCase(taxonomy: seq<TaxonEntry>, name: string, other: string)
    requires Lower(name) == Lower(other)
    ensures FirstMatch(taxonomy, name) == FirstMatch(taxonomy, other)
  {
    if taxonomy != [] {
      FirstMatchIgnoresCase(taxonomy[1..], name, other);
    }
  }
}
