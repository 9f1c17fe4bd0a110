/** The locally added rows (`tempData`), the ids they get from `idCounter`,
    and the merge of the fetched rows with them that `refreshData` performs. */
module Overlay {
  import opened ClientRecords

  /** The starting value of `idCounter`. */
  const FirstLocalId: int := 123123123

  /** The add form's six inputs (`cName`, `cEmail`, `cPhone`, `cIndustry`,
      `cPName`, `cWebsite`). */
  datatype ClientForm = ClientForm(
    name: string, email: string, phone: string,
    industry: string, pocName: string, website: string)

  /** Which input of the add form an `onChange` handler writes. */
  datatype FormInput = NameInput | EmailInput | PhoneInput | IndustryInput | PocNameInput | WebsiteInput

  /** The form after the `onChange` handler of `input` stored `value`: that
      input holds `value` and the five others are as before. */
  function WithInput(form: ClientForm, input: FormInput, value: string): (f: ClientForm)
    ensures f.name == (if input == NameInput then value else form.name)
    ensures f.email == (if input == EmailInput then value else form.email)
    ensures f.phone == (if input == PhoneInput then value else form.phone)
    ensures f.industry == (if input == IndustryInput then value else form.industry)
    ensures f.pocName == (if input == PocNameInput then value else form.pocName)
    ensures f.website == (if input == WebsiteInput then value else form.website)
  {
    match input
    case NameInput => form.(name := value)
    case EmailInput => form.(email := value)
    case PhoneInput => form.(phone := value)
    case IndustryInput => form.(industry := value)
    case PocNameInput => form.(pocName := value)
    case WebsiteInput => form.(website := value)
  }

  /** The inputs after `clearInputs`. */
  const EmptyForm := ClientForm("", "", "", "", "", "")

  /** The record `handleInputsSubmit` appends. */
  function NewRecord(id: int, form: ClientForm): (c: Client)
    ensures c.clientId == id
    ensures c.clientName == form.name && c.clientEmail == form.email
    ensures c.clientWorkPhone == form.phone && c.clientIndustry == form.industry
    ensures c.clientPocName == form.pocName && c.clientWebsite == form.website
  {
    Client(id, form.name, form.email, form.phone, form.industry, form.pocName, form.website)
  }

  /** The overlay's ids are `FirstLocalId`, `FirstLocalId + 1`, ... in order,
      and `idCounter` is the next one. */
  predicate OverlayIds(tempData: seq<Client>, idCounter: int) {
    && idCounter == FirstLocalId + |tempData|
    && forall k :: 0 <= k < |tempData| ==> tempData[k].clientId == FirstLocalId + k
  }

  /** An overlay numbered from the counter has no repeated id, and every id
      lies below the counter, so the next record's id is fresh. */
  lemma OverlayIdsFresh(tempData: seq<Client>, idCounter: int)
    requires OverlayIds(tempData, idCounter)
    ensures Distinct(Ids(tempData))
    ensures forall r :: r in tempData ==> FirstLocalId <= r.clientId < idCounter
  {
  }

  /** Appending the record for the current counter and incrementing the
      counter keeps the numbering. */
  lemma AddKeepsOverlayIds(tempData: seq<Client>, idCounter: int, form: ClientForm)
    requires OverlayIds(tempData, idCounter)
    ensures OverlayIds(tempData + [NewRecord(idCounter, form)], idCounter + 1)
  {
  }

  /** `refreshData`'s success branch: push every fetched row, then every row
      of the overlay, onto `tempRows`. */
  method MergeRows(items: seq<Client>, tempData: seq<Client>) returns (tempRows: seq<Client>)
    ensures tempRows == items + tempData
  {
    tempRows := [];
    var j := 0;
    while j < |items|
      invariant 0 <= j <= |items|
      invariant tempRows == items[..j]
    {
      var item := items[j];
      tempRows := tempRows + [Client(item.clientId, item.clientName, item.clientEmail,
        item.clientWorkPhone, item.clientIndustry, item.clientPocName, item.clientWebsite)];
      assert items[..j + 1] == items[..j] + [items[j]];
      j := j + 1;
    }
    if |tempData| > 0 {
      var i := 0;
      while i < |tempData|
        invariant 0 <= i <= |tempData|
        invariant tempRows == items + tempData[..i]
      {
        var t := tempData[i];
        tempRows := tempRows + [Client(t.clientId, t.clientName, t.clientEmail,
          t.clientWorkPhone, t.clientIndustry, t.clientPocName, t.clientWebsite)];
        assert tempData[..i + 1] == tempData[..i] + [tempData[i]];
        i := i + 1;
      }
    }
    assert items[..|items|] == items && tempData[..|tempData|] == tempData;
  }

  /** If the fetched ids are unique and none falls in the local range
      `[FirstLocalId, idCounter)`, the merged rows have unique ids. */
  lemma MergedIdsUnique(items: seq<Client>, tempData: seq<Client>, idCounter: int)
    requires Distinct(Ids(items))
    requires OverlayIds(tempData, idCounter)
    requires forall i :: 0 <= i < |items| ==> !(FirstLocalId <= items[i].clientId < idCounter)
    ensures Distinct(Ids(items + tempData))
  {
    var all := items + tempData;
    var ids := Ids(all);
    forall i, j | 0 <= i < j < |all| ensures ids[i] != ids[j] {
      if j < |items| {
        assert ids[i] == Ids(items)[i] && ids[j] == Ids(items)[j];
      } else if i < |items| {
        assert all[i] == items[i] && all[j] == tempData[j - |items|];
      } else {
        assert all[i] == tempData[i - |items|] && all[j] == tempData[j - |items|];
      }
    }
  }
}
