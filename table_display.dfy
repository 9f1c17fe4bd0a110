/** The state cells of the `TableDisplay` component and the event handlers
    that update them. A fetch result is passed in as a parameter. */
module TableDisplay {
  import opened ClientRecords
  import opened Comparator
  import opened StableSort
  import opened Search
  import opened Selection
  import opened Paging
  import opened SortHeader
  import opened Overlay

  class TableState {
    var order: Order
    var orderBy: Column
    var selected: seq<int>
    var page: nat
    var rowsPerPage: nat
    /** The rows of the last fetch. */
    var items: seq<Client>
    /** The rows the table shows, before sorting and paging. */
    var finalItems: seq<Client>
    /** The locally added rows. */
    var tempData: seq<Client>
    var idCounter: int
    var word: string
    var form: ClientForm

    /** The overlay is numbered from `FirstLocalId` up to `idCounter`. */
    ghost predicate Valid()
      reads this
    {
      OverlayIds(tempData, idCounter)
    }

    /** The initial values of the state cells. */
    constructor ()
      ensures Valid()
      ensures order == Asc && orderBy == ClientName && selected == []
      ensures page == 0 && rowsPerPage == 5
      ensures items == [] && finalItems == [] && tempData == []
      ensures idCounter == FirstLocalId && word == "" && form == EmptyForm
    {
      order, orderBy, selected := Asc, ClientName, [];
      page, rowsPerPage := 0, 5;
      items, finalItems, tempData := [], [], [];
      idCounter, word, form := FirstLocalId, "", EmptyForm;
    }

    /** The first fetch succeeded with `result`. */
    method Load(result: seq<Client>)
      modifies this
      ensures items == result && finalItems == result
      ensures order == old(order) && orderBy == old(orderBy) && selected == old(selected)
      ensures page == old(page) && rowsPerPage == old(rowsPerPage)
      ensures tempData == old(tempData) && idCounter == old(idCounter)
      ensures word == old(word) && form == old(form)
    {
      items := result;
      finalItems := result;
    }

    /** `refreshData` succeeded with `result`: the table shows the fetched
        rows followed by the overlay. */
    method Refresh(result: seq<Client>)
      modifies this
      ensures items == result && finalItems == result + tempData
      ensures order == old(order) && orderBy == old(orderBy) && selected == old(selected)
      ensures page == old(page) && rowsPerPage == old(rowsPerPage)
      ensures tempData == old(tempData) && idCounter == old(idCounter)
      ensures word == old(word) && form == old(form)
    {
      items := result;
      var tempRows := MergeRows(result, tempData);
      finalItems := tempRows;
    }

    /** `inputWord`: a change of the search box refreshes and stores the word. */
    method InputWord(value: string, result: seq<Client>)
      modifies this
      ensures word == value && items == result && finalItems == result + tempData
      ensures order == old(order) && orderBy == old(orderBy) && selected == old(selected)
      ensures page == old(page) && rowsPerPage == old(rowsPerPage)
      ensures tempData == old(tempData) && idCounter == old(idCounter) && form == old(form)
    {
      Refresh(result);
      word := value;
    }

    /** `clearSearch`: refresh, and empty the search word. */
    method ClearSearch(result: seq<Client>)
      modifies this
      ensures word == "" && items == result && finalItems == result + tempData
      ensures order == old(order) && orderBy == old(orderBy) && selected == old(selected)
      ensures page == old(page) && rowsPerPage == old(rowsPerPage)
      ensures tempData == old(tempData) && idCounter == old(idCounter) && form == old(form)
    {
      Refresh(result);
      word := "";
    }

    /** `handleSubmit`: keep the shown rows that match the search word. */
    method Submit()
      modifies this
      ensures finalItems == Filter(old(finalItems), word)
      ensures order == old(order) && orderBy == old(orderBy) && selected == old(selected)
      ensures page == old(page) && rowsPerPage == old(rowsPerPage) && items == old(items)
      ensures tempData == old(tempData) && idCounter == old(idCounter)
      ensures word == old(word) && form == old(form)
    {
      var tempRows := FilterRows(finalItems, word);
      finalItems := tempRows;
    }

    /** The `onChange` handler of one of the add form's inputs. */
    method SetInput(input: FormInput, value: string)
      modifies this`form
      ensures form == WithInput(old(form), input, value)
    {
      form := WithInput(form, input, value);
    }

    /** `clearInputs`. */
    method ClearInputs()
      modifies this`form
      ensures form == EmptyForm
    {
      form := EmptyForm;
    }

    /** `handleInputsSubmit`: append a record with the current counter as id,
        increment the counter, clear the inputs, then refresh with `result`. */
    method AddRecord(result: seq<Client>)
      requires Valid()
      modifies this
      ensures Valid()
      ensures tempData == old(tempData) + [NewRecord(old(idCounter), old(form))]
      ensures idCounter == old(idCounter) + 1 && form == EmptyForm
      ensures items == result && finalItems == result + tempData
      ensures order == old(order) && orderBy == old(orderBy) && selected == old(selected)
      ensures page == old(page) && rowsPerPage == old(rowsPerPage) && word == old(word)
    {
      var record := NewRecord(idCounter, form);
      if |tempData| == 0 {
        tempData := [record];
      } else {
        tempData := tempData + [record];
      }
      AddKeepsOverlayIds(old(tempData), idCounter, form);
      idCounter := idCounter + 1;
      ClearInputs();
      Refresh(result);
    }

    /** `handleRequestSort`. */
    method RequestSortBy(property: Column)
      modifies this`order, this`orderBy
      ensures orderBy == property
      ensures order == Desc <==> old(orderBy) == property && old(order) == Asc
    {
      var r := RequestSort(order, orderBy, property);
      order, orderBy := r.0, r.1;
    }

    /** `handleSelectAllClick` with the new `checked` state of the header box. */
    method SelectAllClick(checked: bool)
      modifies this`selected
      ensures selected == SelectAll(checked, finalItems)
    {
      selected := SelectAll(checked, finalItems);
    }

    /** `handleClick` on the row of `id`. */
    method Click(id: int)
      modifies this`selected
      ensures id !in old(selected) ==> selected == old(selected) + [id]
      ensures id in old(selected) ==>
        (selected == old(selected)[..IndexOf(old(selected), id)] + old(selected)[IndexOf(old(selected), id) + 1..])
    {
      selected := Toggle(selected, id);
    }

    /** `handleChangePage`. */
    method ChangePage(newPage: nat)
      modifies this`page
      ensures page == newPage
    {
      page := newPage;
    }

    /** `handleChangeRowsPerPage`: a new page size always returns to the first page. */
    method ChangeRowsPerPage(value: nat)
      modifies this`rowsPerPage, this`page
      ensures rowsPerPage == value && page == 0
    {
      rowsPerPage := value;
      page := 0;
    }

    /** `isSelected`. */
    function IsSelected(clientId: int): (b: bool)
      reads this
      ensures b <==> clientId in selected
    {
      IndexOf(selected, clientId) != -1
    }

    /** The table body: copy `finalItems` into `rows`, sort them by the header's
        choice and cut out the current page. At most `rowsPerPage` rows are
        shown, each one of `finalItems`. */
    method DisplayedRows() returns (shown: seq<Client>)
      ensures shown == PageRows(Sort(finalItems, GetComparator(order, orderBy)), page, rowsPerPage)
      ensures |shown| <= rowsPerPage
      ensures forall r :: r in shown ==> r in finalItems
    {
      var rows: seq<Client> := [];
      var i := 0;
      while i < |finalItems|
        invariant 0 <= i <= |finalItems|
        invariant rows == finalItems[..i]
      {
        var item := finalItems[i];
        rows := rows + [Client(item.clientId, item.clientName, item.clientEmail,
          item.clientWorkPhone, item.clientIndustry, item.clientPocName, item.clientWebsite)];
        assert finalItems[..i + 1] == finalItems[..i] + [finalItems[i]];
        i := i + 1;
      }
      assert rows == finalItems;
      var sorted := Sort(rows, GetComparator(order, orderBy));
      shown := PageRows(sorted, page, rowsPerPage);
      SortKeepsMembers(rows, GetComparator(order, orderBy));
    }
  }
}
