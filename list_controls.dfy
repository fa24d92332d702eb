/**
 * The state updates both list controllers share: the sort toggle and the
 * selection of records by id.
 */
module ListControls {
  import opened Employees
  import opened Queries

  /** The direction opposite to `dir`. */
  function Flip(dir: Direction): (r: Direction)
    ensures r != dir
  {
    if dir == Asc then Desc else Asc
  }

  /**
   * A click on the header of `field`: the same field flips the direction,
   * another field is sorted ascending.
   */
  function ToggleSort(current: SortField, dir: Direction, field: SortField): (r: (SortField, Direction))
    ensures r.0 == field
    ensures r.1 == Asc <==> (current != field || dir == Desc)
  {
    if current == field then (field, Flip(dir)) else (field, Asc)
  }

  /** Two clicks on the same header bring the direction back. */
  lemma ToggleSortTwice(current: SortField, dir: Direction, field: SortField)
    ensures var once := ToggleSort(current, dir, field);
      var twice := ToggleSort(once.0, once.1, field);
      twice == (field, if current == field then dir else Desc)
  {
  }

  /** The selection after unchecking `id`: every occurrence removed, the others in order. */
  function Deselect(selected: seq<string>, id: string): (r: seq<string>)
    ensures id !in r
    ensures forall x :: x in r <==> x in selected && x != id
    ensures |r| <= |selected|
  {
    if selected == [] then []
    else (if selected[0] == id then [] else [selected[0]]) + Deselect(selected[1..], id)
  }

  /** `Deselect` keeps the relative order: it works block by block. */
  lemma {:induction false} DeselectConcat(a: seq<string>, b: seq<string>, id: string)
    ensures Deselect(a + b, id) == Deselect(a, id) + Deselect(b, id)
  {
    if a == [] {
      assert a + b == b;
    } else {
      assert (a + b)[0] == a[0];
      assert (a + b)[1..] == a[1..] + b;
      DeselectConcat(a[1..], b, id);
    }
  }

  /** Checking and then unchecking an id that was not selected restores the selection. */
  lemma SelectThenDeselect(selected: seq<string>, id: string)
    requires id !in selected
    ensures Deselect(selected + [id], id) == selected
  {
    DeselectConcat(selected, [id], id);
    DeselectAbsent(selected, id);
  }

  lemma {:induction false} DeselectAbsent(selected: seq<string>, id: string)
    requires id !in selected
    ensures Deselect(selected, id) == selected
  {
    if selected != [] {
      DeselectAbsent(selected[1..], id);
    }
  }

  /** `employees.map(emp => emp.id)`. */
  function Ids(es: seq<Employee>): (r: seq<string>)
    ensures |r| == |es|
    ensures forall i :: 0 <= i < |es| ==> r[i] == es[i].id
  {
    if es == [] then [] else [es[0].id] + Ids(es[1..])
  }
}
