/**
 * The job store: one table of job rows keyed by id. The SQL connection is not
 * modelled; an insert succeeds when it adds a row (an id already present is
 * rejected by the key) and an update succeeds when its id matches a row.
 */
module Store {
  import opened Wrappers

  /** One row of the `archive` or `extract` table (archive rows keep `partialExtraction` empty). */
  datatype Row = Row(
    id: string,
    fileName: string,
    dir: string,
    status: string,
    aligorithm: string,
    filteredNames: string,
    partialExtraction: string,
    background: bool,
    createdOn: int)

  /** The rows after `UPDATE <table> SET status=? WHERE id=?`. */
  function WithStatus(rows: map<string, Row>, id: string, status: string): (r: map<string, Row>)
    ensures r.Keys == rows.Keys
    ensures id in rows ==> r[id] == rows[id].(status := status)
    ensures forall k :: k in rows && k != id ==> r[k] == rows[k]
  {
    if id in rows then rows[id := rows[id].(status := status)] else rows
  }

  /** Setting a status twice is the same as setting it once. */
  lemma WithStatusIdempotent(rows: map<string, Row>, id: string, status: string)
    ensures WithStatus(WithStatus(rows, id, status), id, status) == WithStatus(rows, id, status)
  {
  }

  /** Setting the status of a row just inserted is inserting it with that status. */
  lemma WithStatusOfInserted(rows: map<string, Row>, id: string, row: Row, status: string)
    ensures WithStatus(rows[id := row], id, status) == rows[id := row.(status := status)]
  {
  }

  class Table {
    /** The table name, "archive" or "extract". */
    const name: string
    var rows: map<string, Row>

    /** Every row is stored under its own id. */
    ghost predicate Valid()
      reads this
    {
      forall k :: k in rows ==> rows[k].id == k
    }

    constructor (name: string)
      ensures Valid()
      ensures this.name == name && rows == map[]
    {
      this.name := name;
      rows := map[];
    }

    /** `Conn.Insert`: true iff a row was added; `createdOn` is set by the store. */
    method Insert(row: Row, now: int) returns (inserted: bool)
      requires Valid()
      modifies this
      ensures Valid()
      ensures inserted <==> row.id !in old(rows)
      ensures rows == if inserted then old(rows)[row.id := row.(createdOn := now)] else old(rows)
    {
      inserted := row.id !in rows;
      if inserted {
        rows := rows[row.id := row.(createdOn := now)];
      }
    }

    /** `Conn.Update` of the status column: true iff a row has that id. */
    method Update(id: string, status: string) returns (updated: bool)
      requires Valid()
      modifies this
      ensures Valid()
      ensures updated <==> id in old(rows)
      ensures rows == WithStatus(old(rows), id, status)
    {
      updated := id in rows;
      rows := WithStatus(rows, id, status);
    }

    /** `Conn.Select` by id; `None` is `sql.ErrNoRows`. */
    method Select(id: string) returns (row: Option<Row>)
      requires Valid()
      ensures row.Some? <==> id in rows
      ensures row.Some? ==> row.value == rows[id] && row.value.id == id
    {
      row := if id in rows then Some(rows[id]) else None;
    }
  }
}
