/**
 * The feeling catalog offered on the check-in form and the trend scale the
 * instructor panel applies to it. Both are fixed tables in the source; the
 * scale is written as its own dictionary, separately from the catalog.
 */
module Feelings {

  /** One catalog option: the label a student picks (`name`) and its description. */
  datatype Feeling = Feeling(name: string, description: string)

  /** The catalog, in the order the form offers it. */
  const Catalog: seq<Feeling> := [
    Feeling("\U{1F600} Animado(a)", "Alta energia / motiva\U{E7}\U{E3}o"),
    Feeling("\U{1F642} Bem", "Ok para acompanhar"),
    Feeling("\U{1F610} Neutro(a)", "Nem bem nem mal"),
    Feeling("\U{1F615} Confuso(a)", "Preciso de mais exemplos"),
    Feeling("\U{1F623} Ansioso(a)", "Estou travado(a) / preocupado(a)"),
    Feeling("\U{1F634} Cansado(a)", "Baixa energia hoje")
  ]

  /** The trend scale, keyed by label. */
  const Scale: map<string, int> := map[
    "\U{1F600} Animado(a)" := 3,
    "\U{1F642} Bem" := 2,
    "\U{1F610} Neutro(a)" := 1,
    "\U{1F615} Confuso(a)" := 0,
    "\U{1F623} Ansioso(a)" := -1,
    "\U{1F634} Cansado(a)" := -2
  ]

  /** `name` is one of the catalog labels. */
  predicate IsLabel(name: string) {
    exists i :: 0 <= i < |Catalog| && Catalog[i].name == name
  }

  /** The labels of a list of options, in list order. */
  function LabelsOf(entries: seq<Feeling>): (r: seq<string>)
    ensures |r| == |entries|
    ensures forall i :: 0 <= i < |entries| ==> r[i] == entries[i].name
  {
    if |entries| == 0 then [] else [entries[0].name] + LabelsOf(entries[1..])
  }

  /** The catalog labels, in catalog order: the order the form lists them
      and the order the distribution reindexes to. */
  function Labels(): (r: seq<string>)
    ensures |r| == |Catalog|
    ensures forall i :: 0 <= i < |Catalog| ==> r[i] == Catalog[i].name
  {
    LabelsOf(Catalog)
  }

  /** No two catalog options share a label. */
  lemma LabelsDistinct()
    ensures forall i, j :: 0 <= i < j < |Catalog| ==> Catalog[i].name != Catalog[j].name
  {
  }

  /** `entries[i]` is the last entry whose label is `key`. */
  predicate LastWith(entries: seq<Feeling>, key: string, i: int) {
    && 0 <= i < |entries| && entries[i].name == key
    && forall j :: i < j < |entries| ==> entries[j].name != key
  }

  /** Python's `dict(entries).get(key, default)`: building a dict from a
      list of pairs keeps the LAST pair for a repeated key, and a missing
      key yields the default. */
  function DictGet(entries: seq<Feeling>, key: string, default: string): (r: string)
    ensures (forall i :: 0 <= i < |entries| ==> entries[i].name != key) ==> r == default
    ensures forall i :: LastWith(entries, key, i) ==> r == entries[i].description
  {
    if |entries| == 0 then default
    else if entries[|entries| - 1].name == key then entries[|entries| - 1].description
    else
      var init := entries[..|entries| - 1];
      assert forall i :: LastWith(entries, key, i) ==> LastWith(init, key, i);
      DictGet(init, key, default)
  }

  /** The description stored with a submission: the catalog description
      paired with the chosen label, or "" for a label outside the catalog. */
  function Detail(name: string): (d: string)
    ensures forall i :: 0 <= i < |Catalog| && Catalog[i].name == name ==> d == Catalog[i].description
    ensures !IsLabel(name) ==> d == ""
  {
    LabelsDistinct();
    DictGet(Catalog, name, "")
  }

  /** The trend score of a feeling: its scale value, or 0 when the scale
      has no entry for it. Every score lies in [-2, 3]. */
  function Score(feeling: string): (s: int)
    ensures -2 <= s <= 3
    ensures feeling !in Scale ==> s == 0
  {
    if feeling in Scale then Scale[feeling] else 0
  }

  /** The scale is keyed by exactly the catalog labels, and it descends one
      step per catalog position, from 3 for the first option to -2 for the
      last; labels outside the catalog score 0. */
  lemma ScaleFollowsCatalog(feeling: string)
    ensures feeling in Scale <==> IsLabel(feeling)
    ensures forall i :: 0 <= i < |Catalog| ==> Score(Catalog[i].name) == 3 - i
    ensures !IsLabel(feeling) ==> Score(feeling) == 0
  {
    if feeling in Scale {
      var i :| 0 <= i < |Catalog| && Catalog[i].name == feeling by {
        if feeling == Catalog[0].name {} else if feeling == Catalog[1].name {}
        else if feeling == Catalog[2].name {} else if feeling == Catalog[3].name {}
        else if feeling == Catalog[4].name {} else { assert feeling == Catalog[5].name; }
      }
    }
  }
}
