/**
 * The transformation that every load runs on a fetched employee list: sort
 * ascending by age, then project each employee to its display row.
 */
module ViewModel {
  import opened Employees
  import opened AgeSort
  import opened Seqs

  /** The rows published for one fetched list: `map { $0.sorted { $0.age < $1.age } }` then `map { $0.map { $0.toRow() } }`. */
  function Rows(fetched: seq<Employee>): (r: seq<EmployeeRow>)
    ensures |r| == |fetched|
  {
    Map(ToRow, SortByAge(fetched))
  }

  /**
   * Row `i` is the projection of the `i`-th employee of the sorted list:
   * sorting and projecting element by element gives what the two passes give.
   */
  lemma RowsAt(fetched: seq<Employee>)
    ensures forall i :: 0 <= i < |fetched| ==> Rows(fetched)[i] == ToRow(SortByAge(fetched)[i])
  {
    forall i | 0 <= i < |fetched| {
      MapAt(ToRow, SortByAge(fetched), i);
    }
  }

  /** The rows are the projections of the unique age-ordered arrangement that keeps each age's order. */
  lemma RowsOfStableArrangement(fetched: seq<Employee>, out: seq<Employee>)
    requires SortedByAge(out) && SameOrderPerAge(out, fetched)
    ensures Rows(fetched) == Map(ToRow, out)
  {
    SortByAgeCharacterized(fetched, out);
  }

  /** Every fetched employee gives exactly one row, and every row comes from one fetched employee. */
  lemma RowsArePermutedProjections(fetched: seq<Employee>)
    ensures multiset(Rows(fetched)) == multiset(Map(ToRow, fetched))
  {
    MapPermutation(ToRow, SortByAge(fetched), fetched);
  }

  /** Read back from the rows themselves, the displayed ages are non-decreasing. */
  lemma RowsAscendingByDisplayedAge(fetched: seq<Employee>, i: int, j: int)
    requires 0 <= i < j < |fetched|
    ensures AgeOf(Rows(fetched)[i]).Some? && AgeOf(Rows(fetched)[j]).Some?
    ensures AgeOf(Rows(fetched)[i]).value <= AgeOf(Rows(fetched)[j]).value
  {
    var sorted := SortByAge(fetched);
    MapAt(ToRow, sorted, i);
    MapAt(ToRow, sorted, j);
    ToRowRecovers(sorted[i]);
    ToRowRecovers(sorted[j]);
  }
}
