/** The `links` table as the route handlers use it: one row per code, and
    the single SQL statements the handlers run against it, each taken as one
    atomic step. */
module Store {
  import opened Responses
  import opened Codes

  /** A point in time as the database's NOW() returns it. */
  type Timestamp = int

  /** One row of `links`, without its primary key `code` (the map key) and
      without the serial `id`, which no response exposes. */
  datatype Row = Row(
    targetUrl: string,
    totalClicks: nat,
    lastClickedAt: Option<Timestamp>,
    createdAt: Timestamp,
    updatedAt: Timestamp)

  type Rows = map<string, Row>

  /** The values the table's column defaults give the columns an INSERT
      leaves out. */
  datatype ColumnDefaults = ColumnDefaults(
    totalClicks: nat,
    lastClickedAt: Option<Timestamp>,
    createdAt: Timestamp,
    updatedAt: Timestamp)

  /** The row INSERT INTO links (code, target_url) creates. */
  function NewRow(targetUrl: string, defaults: ColumnDefaults): Row {
    Row(targetUrl, defaults.totalClicks, defaults.lastClickedAt, defaults.createdAt, defaults.updatedAt)
  }

  /** The row after the click UPDATE's SET list: one more click, both
      timestamps set to now, the URL and creation time left as they were. */
  function Clicked(row: Row, now: Timestamp): (r: Row)
    ensures r.totalClicks == row.totalClicks + 1
    ensures r.lastClickedAt == Some(now) && r.updatedAt == now
    ensures r.targetUrl == row.targetUrl && r.createdAt == row.createdAt
  {
    row.(totalClicks := row.totalClicks + 1, lastClickedAt := Some(now), updatedAt := now)
  }

  /** Every key of the table passes CODE_REGEX; the handlers only ever
      insert such keys. */
  ghost predicate CodesWellFormed(rows: Rows) {
    forall code :: code in rows ==> IsCode(code)
  }

  class LinkTable {
    var rows: Rows

    constructor (initial: Rows)
      ensures rows == initial
    {
      rows := initial;
    }

    /** SELECT 1 FROM links WHERE code = $1 LIMIT 1, rowCount > 0. */
    function Contains(code: string): bool
      reads this
    {
      code in rows
    }

    /** INSERT INTO links (code, target_url) VALUES ($1, $2) RETURNING ...:
        the primary key on `code` refuses a duplicate, leaving the table as
        it was. */
    method Insert(code: string, targetUrl: string, defaults: ColumnDefaults) returns (inserted: Option<Row>)
      modifies this
      ensures code in old(rows) ==> inserted == None && rows == old(rows)
      ensures code !in old(rows) ==> inserted == Some(NewRow(targetUrl, defaults))
      ensures code !in old(rows) ==> rows == old(rows)[code := NewRow(targetUrl, defaults)]
    {
      if code in rows {
        inserted := None;
      } else {
        var row := NewRow(targetUrl, defaults);
        rows := rows[code := row];
        inserted := Some(row);
      }
    }

    /** DELETE FROM links WHERE code = $1; its rowCount. */
    method DeleteByCode(code: string) returns (rowCount: nat)
      modifies this
      ensures rowCount == if code in old(rows) then 1 else 0
      ensures rows == old(rows) - {code}
    {
      rowCount := if code in rows then 1 else 0;
      rows := rows - {code};
    }

    /** UPDATE links SET total_clicks = total_clicks + 1, last_clicked_at =
        NOW(), updated_at = NOW() WHERE code = $1 RETURNING target_url, as
        one atomic read-modify-write: None when no row matched. */
    method RecordClickAndFetch(code: string, now: Timestamp) returns (targetUrl: Option<string>)
      modifies this
      ensures code !in old(rows) ==> targetUrl == None && rows == old(rows)
      ensures code in old(rows) ==> rows == old(rows)[code := Clicked(old(rows)[code], now)]
      ensures code in old(rows) ==> targetUrl == Some(rows[code].targetUrl) && targetUrl == Some(old(rows)[code].targetUrl)
    {
      if code in rows {
        rows := rows[code := Clicked(rows[code], now)];
        targetUrl := Some(rows[code].targetUrl);
      } else {
        targetUrl := None;
      }
    }
  }
}
