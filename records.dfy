/** The client record shown by the table, the columns a header can sort by,
    and the value a column reads out of a record. */
module ClientRecords {

  /** One client row, with the seven fields that `createData` copies. */
  datatype Client = Client(
    clientId: int,
    clientName: string,
    clientEmail: string,
    clientWorkPhone: string,
    clientIndustry: string,
    clientPocName: string,
    clientWebsite: string)

  /** The `id` of each header cell. `EditInfo` names no field of a client. */
  datatype Column =
    | ClientName | ClientEmail | ClientWorkPhone | ClientIndustry
    | ClientPocName | ClientWebsite | EditInfo

  /** What `row[orderBy]` evaluates to: a string, or `undefined` when the
      column names no field. */
  datatype Value = Undefined | Str(s: string)

  /** `row[column]`. */
  function Field(row: Client, column: Column): (v: Value)
    ensures v.Undefined? <==> column == EditInfo
  {
    match column
    case ClientName => Str(row.clientName)
    case ClientEmail => Str(row.clientEmail)
    case ClientWorkPhone => Str(row.clientWorkPhone)
    case ClientIndustry => Str(row.clientIndustry)
    case ClientPocName => Str(row.clientPocName)
    case ClientWebsite => Str(row.clientWebsite)
    case EditInfo => Undefined
  }

  /** The `clientId` of every row, in order (`items.map((item) => item.clientId)`). */
  function Ids(rows: seq<Client>): (ids: seq<int>)
    ensures |ids| == |rows|
    ensures forall k :: 0 <= k < |rows| ==> ids[k] == rows[k].clientId
  {
    seq(|rows|, k requires 0 <= k < |rows| => rows[k].clientId)
  }

  /** No two entries of `ids` are equal. */
  predicate Distinct(ids: seq<int>) {
    forall i, j :: 0 <= i < j < |ids| ==> ids[i] != ids[j]
  }
}
