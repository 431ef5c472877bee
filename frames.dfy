/** The two pandas lookups bag_of_words.py relies on: a column by its name (`.loc`)
    and a row by its position (`.iloc`). */
module Frames {
  import opened Outcomes

  /** Position of the first column labelled `name`, or None when no column has it
      (pandas raises KeyError then). */
  function ColumnPosition(labels: seq<string>, name: string): (r: Option<nat>)
    ensures r.None? <==> name !in labels
    ensures r.Some? ==> r.value < |labels| && labels[r.value] == name && name !in labels[..r.value]
  {
    if labels == [] then None
    else if labels[0] == name then Some(0)
    else
      match ColumnPosition(labels[1..], name)
      case None => None
      case Some(k) =>
        assert labels[..k + 1] == [labels[0]] + labels[1..][..k];
        Some(k + 1)
  }

  /** Row that `.iloc[index]` picks among `n` rows: a non-negative index counts from the
      first row, a negative one from past the last; anything else is out of bounds
      (pandas raises IndexError then). */
  function RowPosition(n: nat, index: int): (r: Option<nat>)
    ensures r.Some? <==> (0 <= index < n || (index < 0 && 0 <= index + n))
    ensures r.Some? ==> r.value < n && (r.value == index || r.value == index + n)
  {
    if 0 <= index < n then Some(index)
    else if index < 0 && 0 <= index + n then Some(index + n)
    else None
  }
}
