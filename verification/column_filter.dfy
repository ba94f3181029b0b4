/**
 * The column-filter widget (src/questions-1318331): which table columns are
 * shown is a committed filter (a list of column accessors); a dropdown edits
 * a draft copy of it with one checkbox per column and either applies the
 * draft or is cancelled.
 */
module ColumnFilter {
  import opened Wrappers

  datatype Column = Column(header: string, accessor: string)

  /** The table's columns, in display order. */
  const Columns: seq<Column> := [Column("Column 1", "col1"), Column("Column 2", "col2")]

  /** `r` occurs in `s` in the same order, possibly with gaps. */
  predicate IsSubsequence<T(==)>(r: seq<T>, s: seq<T>)
    decreases |s|
  {
    if r == [] then true
    else if s == [] then false
    else if r[0] == s[0] then IsSubsequence(r[1..], s[1..])
    else IsSubsequence(r, s[1..])
  }

  /** `columns.map((column) => column.accessor)`. */
  function Accessors(cols: seq<Column>): (r: seq<string>)
    ensures |r| == |cols|
    ensures forall i :: 0 <= i < |cols| ==> r[i] == cols[i].accessor
  {
    if cols == [] then [] else [cols[0].accessor] + Accessors(cols[1..])
  }

  /** `xs.filter((key) => !excluded.includes(key))`: the entries of `xs` not in `excluded`, in order. */
  function Without(xs: seq<string>, excluded: seq<string>): (r: seq<string>)
    ensures IsSubsequence(r, xs)
    ensures forall x :: x in r <==> x in xs && x !in excluded
    ensures forall x :: multiset(r)[x] == if x in excluded then 0 else multiset(xs)[x]
  {
    if xs == [] then []
    else
      assert xs == [xs[0]] + xs[1..];
      if xs[0] in excluded then Without(xs[1..], excluded)
      else [xs[0]] + Without(xs[1..], excluded)
  }

  /** Filtering keeps a duplicate-free list duplicate-free. */
  lemma {:induction false} WithoutNoDuplicates(xs: seq<string>, excluded: seq<string>)
    requires NoDuplicates(xs)
    ensures NoDuplicates(Without(xs, excluded))
  {
    if xs != [] {
      assert NoDuplicates(xs[1..]) by {
        forall i, j | 0 <= i < j < |xs[1..]| ensures xs[1..][i] != xs[1..][j] {
          assert xs[1..][i] == xs[i + 1] && xs[1..][j] == xs[j + 1];
        }
      }
      WithoutNoDuplicates(xs[1..], excluded);
      var rest := Without(xs[1..], excluded);
      assert xs[0] !in xs[1..];
      assert xs[0] !in rest;
    }
  }

  /** `getStateDropdown(filter)`: the accessors of the columns that are not in `filter`, in column order. */
  function GetStateDropdown(filter: seq<string>): (r: seq<string>)
    ensures IsSubsequence(r, Accessors(Columns))
    ensures forall a :: a in r <==> a in Accessors(Columns) && a !in filter
  {
    Without(Accessors(Columns), filter)
  }

  /** With an empty filter every accessor is returned; this is the initial committed filter. */
  lemma GetStateDropdownEmpty()
    ensures GetStateDropdown([]) == ["col1", "col2"]
  {
    assert Accessors(Columns) == ["col1", "col2"];
    assert Without(["col1", "col2"], []) == ["col1"] + Without(["col2"], []);
  }

  /** `columns.filter((column) => filter.includes(column.accessor))`: the columns the table shows. */
  function ListOfColumns(cols: seq<Column>, filter: seq<string>): (r: seq<Column>)
    ensures IsSubsequence(r, cols)
    ensures forall c :: c in r <==> c in cols && c.accessor in filter
    ensures forall c :: multiset(r)[c] == if c.accessor in filter then multiset(cols)[c] else 0
  {
    if cols == [] then []
    else
      assert cols == [cols[0]] + cols[1..];
      if cols[0].accessor in filter then [cols[0]] + ListOfColumns(cols[1..], filter)
      else ListOfColumns(cols[1..], filter)
  }

  /** The dropdown and its draft filter (`state` in the source). */
  class Dropdown {
    var state: seq<string>

    /** Mounting the dropdown copies the committed filter into the draft. */
    constructor (filter: seq<string>)
      ensures state == filter
    {
      state := filter;
    }

    /** `handleChange(field, flag)`: append `field` when `flag` holds, otherwise remove every occurrence of it. */
    method HandleChange(field: string, flag: bool)
      modifies this
      ensures flag ==> state == old(state) + [field]
      ensures !flag ==> state == Without(old(state), [field])
    {
      if flag {
        state := state + [field];
        return;
      }
      if !flag {
        state := Without(state, [field]);
        return;
      }
    }

    /**
     * A click on the checkbox of the column with accessor `field`: the
     * checkbox passes `!isChecked`, so an absent field is added and a present
     * one removed; every other entry is kept, and no duplicate appears.
     */
    method ToggleCheckbox(field: string)
      modifies this
      ensures field in state <==> field !in old(state)
      ensures forall x :: x != field ==> (x in state <==> x in old(state))
      ensures field !in old(state) ==> state == old(state) + [field]
      ensures field in old(state) ==> state == Without(old(state), [field])
      ensures NoDuplicates(old(state)) ==> NoDuplicates(state)
    {
      var isChecked := field in state;
      ghost var before := state;
      HandleChange(field, !isChecked);
      if !isChecked && NoDuplicates(before) {
        forall i, j | 0 <= i < j < |state| ensures state[i] != state[j] {
          if j == |before| {
            assert state[i] == before[i];
          } else {
            assert state[i] == before[i] && state[j] == before[j];
          }
        }
      }
      if isChecked && NoDuplicates(before) {
        WithoutNoDuplicates(before, [field]);
      }
    }
  }

  /**
   * The page: `useFilter`'s committed filter and dropdown visibility, and the
   * dropdown itself, which exists exactly while it is visible.
   */
  class FilterPage {
    var filter: seq<string>
    var isVisibleDropDown: bool
    var dropdown: Dropdown?

    ghost predicate Valid()
      reads this
    {
      isVisibleDropDown <==> dropdown != null
    }

    /** The initial state: every column selected, dropdown hidden. */
    constructor ()
      ensures Valid()
      ensures filter == GetStateDropdown([]) && filter == ["col1", "col2"]
      ensures !isVisibleDropDown
    {
      GetStateDropdownEmpty();
      filter := GetStateDropdown([]);
      isVisibleDropDown := false;
      dropdown := null;
    }

    /** The columns handed to the table. */
    function ShownColumns(): (r: seq<Column>)
      reads this
      ensures IsSubsequence(r, Columns)
      ensures forall c :: c in r <==> c in Columns && c.accessor in filter
    {
      ListOfColumns(Columns, filter)
    }

    /**
     * `handleToggleClick`, also the dropdown's cancel button: flips the
     * visibility and leaves the committed filter alone. Showing the dropdown
     * mounts a fresh one whose draft is the committed filter.
     */
    method HandleToggleClick()
      requires Valid()
      modifies this
      ensures Valid()
      ensures isVisibleDropDown == !old(isVisibleDropDown)
      ensures filter == old(filter)
      ensures isVisibleDropDown ==> fresh(dropdown) && dropdown.state == filter
    {
      isVisibleDropDown := !isVisibleDropDown;
      if isVisibleDropDown {
        dropdown := new Dropdown(filter);
      } else {
        dropdown := null;
      }
    }

    /** `handleFilterUpdate(draft)`: commit `draft` and hide the dropdown. */
    method HandleFilterUpdate(draft: seq<string>)
      requires Valid()
      modifies this
      ensures Valid()
      ensures filter == draft && !isVisibleDropDown
    {
      filter := draft;
      isVisibleDropDown := false;
      dropdown := null;
    }

    /** The dropdown's save button: `onApply(state)` commits the current draft. */
    method ApplyDraft()
      requires Valid() && isVisibleDropDown
      modifies this
      ensures Valid()
      ensures filter == old(dropdown.state) && !isVisibleDropDown
    {
      HandleFilterUpdate(dropdown.state);
    }
  }
}
