/** A paper record as the embedding and loading stages see it: a JSON
    object read from disk, so every key may be missing. */
module Papers {
  import opened Optional

  /** A sentence embedding; the numbers themselves come from the model
      and are never computed here. */
  type Vector = seq<real>

  datatype Paper = Paper(
    id: Option<string>,
    title: Option<string>,
    abstractText: Option<string>,
    categories: Option<seq<string>>,
    authors: Option<string>,
    updateDate: Option<string>,
    abstractVector: Option<Vector>)
}
