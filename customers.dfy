/** The customer records the table shows, and the columns it can sort by. */
module Customers {

  /** One customer record. Every field except `id` is a string, also the
      ones that read as dates, amounts or percentages. */
  datatype Row = Row(
    id: int,
    name: string,
    country: string,
    agent: string,
    date: string,
    balance: string,
    status: string,
    activity: string)

  /** The seven column ids of the header, each naming a string field. */
  datatype Field = Name | Country | Agent | Date | Balance | Status | Activity

  /** `row[field]` for a column id: the field the id names, so a column's
      value never depends on the row's `id`. */
  function Get(r: Row, f: Field): (v: string)
    ensures v in [r.name, r.country, r.agent, r.date, r.balance, r.status, r.activity]
  {
    match f
    case Name => r.name
    case Country => r.country
    case Agent => r.agent
    case Date => r.date
    case Balance => r.balance
    case Status => r.status
    case Activity => r.activity
  }

  /** Changing a row's `id` changes none of its column values. */
  lemma GetIgnoresId(r: Row, f: Field, id: int)
    ensures Get(r.(id := id), f) == Get(r, f)
  {
  }

  /** The keys of the status colour table; a row whose status is not one of
      them has no colour to render. */
  const StatusKeys: set<string> := {"PROPOSAL", "QUALIFIED", "RENEWAL", "NEW", "UNQUALIFIED"}

  predicate HasKnownStatus(r: Row)
  {
    r.status in StatusKeys
  }

  /** The names of `rows`, in row order (`rows.map((n) => n.name)`). */
  function Names(rows: seq<Row>): (r: seq<string>)
    ensures |r| == |rows|
    ensures forall i :: 0 <= i < |rows| ==> r[i] == rows[i].name
  {
    seq(|rows|, i requires 0 <= i < |rows| => rows[i].name)
  }
}
