/** `handleRequestSort`: a click on a column header chooses the sort column
    and direction. */
module SortHeader {
  import opened ClientRecords
  import opened Comparator

  /** The `(order, orderBy)` pair after a click on the header of `property`:
      the direction flips to descending only when the column was already
      sorted ascending; otherwise sorting restarts ascending. */
  function RequestSort(order: Order, orderBy: Column, property: Column): (r: (Order, Column))
    ensures r.1 == property
    ensures r.0 == Desc <==> orderBy == property && order == Asc
    ensures r.0 == Asc <==> orderBy != property || order == Desc
  {
    var isAsc := orderBy == property && order == Asc;
    (if isAsc then Desc else Asc, property)
  }

  /** Once a column is chosen, every further click on it reverses the
      direction, and two further clicks return to the same state. */
  lemma RepeatedClicksAlternate(order: Order, orderBy: Column, property: Column)
    ensures var once := RequestSort(order, orderBy, property);
      var twice := RequestSort(once.0, once.1, property);
      twice.1 == property && twice.0 != once.0 &&
      RequestSort(twice.0, twice.1, property) == once
  {
  }
}
