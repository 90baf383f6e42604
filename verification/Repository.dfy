/** The heartbeat table: rows are appended, and the latest one is chosen by comparing
    stored texts, then row ids. */
module Repository {
  import opened Common
  import Text
  import opened Timestamps

  /** The node's own report; the measurements pass through storage unchanged. */
  datatype Telemetry = Telemetry(host: string, timestamp: Datetime, metrics: seq<real>)

  datatype Record = Record(telemetry: Telemetry, receivedAt: Datetime)

  datatype Row = Row(id: nat, node: string, reportedAt: string, receivedAt: string, metrics: seq<real>)

  datatype Error = BlankNode | BadTimestamp(why: TimestampError) | UnreadableRow | StorageFailed

  predicate Canonical(s: Stamp) {
    ValidStamp(s) && s.Aware? && Representable(Instant(s))
  }

  /** A record the table accepts. */
  predicate Storable(r: Record) {
    !Text.Blank(r.telemetry.host) && Canonical(r.receivedAt) && Canonical(r.telemetry.timestamp)
  }

  function RowOf(r: Record, id: nat): Row
    requires Storable(r)
  {
    var reported, received := IsoInstant(Instant(r.telemetry.timestamp)), IsoInstant(Instant(r.receivedAt));
    Row(id, r.telemetry.host, reported, received, r.telemetry.metrics)
  }

  /** The same instants, expressed in UTC. */
  function InUtc(r: Record): Record
    requires Storable(r)
  {
    Record(Telemetry(r.telemetry.host, UtcDatetime(Instant(r.telemetry.timestamp)), r.telemetry.metrics),
           UtcDatetime(Instant(r.receivedAt)))
  }

  /** Expressing a record in UTC changes the offset of its two moments and nothing else. */
  lemma InUtcMeaning(r: Record)
    requires Storable(r)
    ensures var u := InUtc(r);
            && (u.telemetry.host, u.telemetry.metrics) == (r.telemetry.host, r.telemetry.metrics)
            && u.receivedAt.Aware? && u.receivedAt.offset == 0 && Instant(u.receivedAt) == Instant(r.receivedAt)
            && u.telemetry.timestamp.Aware? && u.telemetry.timestamp.offset == 0
            && Instant(u.telemetry.timestamp) == Instant(r.telemetry.timestamp)
  {
    hide Text.Blank, Utc, ValidStamp, IsoInstant;
  }

  /** ORDER BY received_at DESC, id DESC. */
  predicate Precedes(a: Row, b: Row) {
    Text.Less(b.receivedAt, a.receivedAt) || (a.receivedAt == b.receivedAt && a.id > b.id)
  }

  function LatestRow(rows: seq<Row>, node: string): Option<Row> {
    if rows == [] then None
    else
      var row := rows[|rows| - 1];
      var best := LatestRow(rows[..|rows| - 1], node);
      if row.node == node && (best.None? || Precedes(row, best.value)) then Some(row) else best
  }

  function RecordOf(row: Row): Result<Record, Error> {
    var reported := ParseTimestamp(row.reportedAt);
    var received := ParseTimestamp(row.receivedAt);
    if reported.None? || received.None? || Text.Blank(row.node) then Err(UnreadableRow)
    else Ok(Record(Telemetry(row.node, reported.value, row.metrics), received.value))
  }

  lemma RowReadsBack(r: Record, id: nat)
    requires Storable(r)
    ensures RecordOf(RowOf(r, id)) == Ok(InUtc(r))
  {
    hide ParseTimestamp, IsoInstant;
    InstantReadsBack(Instant(r.telemetry.timestamp));
    InstantReadsBack(Instant(r.receivedAt));
  }

  ghost predicate AllStorable(records: seq<Record>) {
    forall i | 0 <= i < |records| :: Storable(records[i])
  }

  /** The position of the node's record that was received last, the later insertion winning a tie. */
  ghost predicate IsLatest(records: seq<Record>, node: string, i: nat)
    requires AllStorable(records)
  {
    && i < |records| && records[i].telemetry.host == node
    && forall j | 0 <= j < |records| && records[j].telemetry.host == node :: NotLater(records, j, i)
  }

  ghost predicate NotLater(records: seq<Record>, j: nat, i: nat)
    requires AllStorable(records)
    requires j < |records| && i < |records|
  {
    var s, t := Instant(records[j].receivedAt), Instant(records[i].receivedAt);
    s < t || (s == t && j <= i)
  }

  ghost predicate Stores(rows: seq<Row>, records: seq<Record>) {
    && AllStorable(records)
    && |rows| == |records|
    && forall i | 0 <= i < |rows| :: rows[i] == RowOf(records[i], i + 1)
  }

  lemma PrecedesIsLater(a: Record, i: nat, b: Record, j: nat)
    requires Storable(a) && Storable(b)
    ensures Precedes(RowOf(a, i), RowOf(b, j)) <==>
            var s, t := Instant(a.receivedAt), Instant(b.receivedAt);
            t < s || (s == t && j < i)
  {
    hide IsoInstant;
    InstantOrder(Instant(b.receivedAt), Instant(a.receivedAt));
  }

  ghost predicate Finds(rows: seq<Row>, records: seq<Record>, node: string, found: Option<Row>)
    requires Stores(rows, records)
  {
    match found
    case None => forall i | 0 <= i < |records| :: records[i].telemetry.host != node
    case Some(row) => 1 <= row.id <= |rows| && row == rows[row.id - 1] && IsLatest(records, node, row.id - 1)
  }

  /** Choosing by text and id finds the chronological latest, whatever was inserted. */
  lemma {:induction false} LatestRowIsLatest(rows: seq<Row>, records: seq<Record>, node: string)
    requires Stores(rows, records)
    ensures Finds(rows, records, node, LatestRow(rows, node))
    decreases |rows|
  {
    hide IsoInstant, Storable, Precedes;
    if rows != [] {
      var n := |rows| - 1;
      LatestRowIsLatest(rows[..n], records[..n], node);
      var best := LatestRow(rows[..n], node);
      LastOrBest(rows, records, node, best);
    }
  }

  lemma LastOrBest(rows: seq<Row>, records: seq<Record>, node: string, best: Option<Row>)
    requires rows != [] && Stores(rows, records)
    requires Stores(rows[..|rows| - 1], records[..|rows| - 1])
    requires Finds(rows[..|rows| - 1], records[..|rows| - 1], node, best)
    ensures var n := |rows| - 1;
            Finds(rows, records, node,
                  if rows[n].node == node && (best.None? || Precedes(rows[n], best.value)) then Some(rows[n]) else best)
  {
    hide IsoInstant, Canonical, Precedes, Instant, Storable, Text.Blank;
    var n := |rows| - 1;
    if best.Some? {
      var i := best.value.id - 1;
      PrecedesIsLater(records[n], n + 1, records[i], i + 1);
      forall j | 0 <= j < n && records[j].telemetry.host == node
        ensures NotLater(records, j, i)
      {
        assert NotLater(records[..n], j, i);
      }
    }
  }

  class HeartbeatRepository {
    var rows: seq<Row>
    ghost var contents: seq<Record>

    ghost predicate Valid()
      reads this
    {
      Stores(rows, contents)
    }

    constructor ()
      ensures Valid() && contents == []
    {
      rows, contents := [], [];
    }

    /** Appends one row, or refuses before writing anything; a failing transaction is rolled back. */
    method InsertHeartbeat(record: Record, broken: bool) returns (id: Result<nat, Error>)
      requires Valid()
      modifies this
      ensures Valid()
      ensures id.Ok? <==> Storable(record) && !broken
      ensures id.Ok? ==> id.value == |rows| == |contents| && contents == old(contents) + [record]
      ensures id.Err? ==> contents == old(contents) && rows == old(rows)
    {
      hide IsoInstant;
      if Text.Blank(record.telemetry.host) { return Err(BlankNode); }
      var reported := Serialize(record.telemetry.timestamp);
      if reported.Err? { return Err(BadTimestamp(reported.error)); }
      var received := Serialize(record.receivedAt);
      if received.Err? { return Err(BadTimestamp(received.error)); }
      if broken { return Err(StorageFailed); }
      rows := rows + [Row(|rows| + 1, record.telemetry.host, reported.value, received.value, record.telemetry.metrics)];
      contents := contents + [record];
      return Ok(|rows|);
    }

    /** The chronologically latest record of the node, in UTC. */
    method LatestHeartbeat(node: string) returns (latest: Result<Option<Record>, Error>)
      requires Valid()
      ensures latest.Err? <==> Text.Blank(node)
      ensures latest == Ok(None) ==> forall r | r in contents :: r.telemetry.host != node
      ensures latest.Ok? && latest.value.Some? ==>
                exists i: nat ::
                  i < |contents| && IsLatest(contents, node, i) && latest.value.value == InUtc(contents[i])
    {
      hide IsoInstant, Storable, RecordOf, InUtc, IsLatest;
      if Text.Blank(node) { return Err(BlankNode); }
      var row := LatestRow(rows, node);
      LatestRowIsLatest(rows, contents, node);
      if row.None? { return Ok(None); }
      ghost var i := row.value.id - 1;
      RowReadsBack(contents[i], i + 1);
      var record := RecordOf(row.value);
      return Ok(Some(record.value));
    }
  }
}
