/** One typed heartbeat: a configured node, the central clock, one row. */
module Ingestion {
  import opened Common
  import opened Timestamps
  import opened Repository

  /** What the outside contributes to one request: the clock's answer, if it is a datetime at all,
      and whether the insert's transaction fails. */
  datatype Moment = Moment(clock: Option<Datetime>, broken: bool)

  datatype Receipt = Receipt(node: string, observationId: nat, receivedAt: Datetime)

  datatype IngestError = UnknownNode | InvalidClock | NotStored(why: Repository.Error)

  predicate Accepts(hosts: set<string>, telemetry: Telemetry, moment: Moment) {
    && telemetry.host in hosts
    && moment.clock.Some?
    && Storable(Record(telemetry, moment.clock.value))
    && !moment.broken
  }

  class HeartbeatIngestor {
    const hosts: set<string>
    const repository: HeartbeatRepository

    constructor (hosts: set<string>, repository: HeartbeatRepository)
      ensures this.hosts == hosts && this.repository == repository
    {
      this.hosts, this.repository := hosts, repository;
    }

    /** Stores exactly the telemetry it was given, stamped by the central clock, or nothing. */
    method Ingest(telemetry: Telemetry, moment: Moment) returns (receipt: Result<Receipt, IngestError>)
      requires repository.Valid()
      modifies repository
      ensures repository.Valid()
      ensures receipt.Ok? <==> Accepts(hosts, telemetry, moment)
      ensures receipt.Ok? ==>
                && repository.contents == old(repository.contents) + [Record(telemetry, moment.clock.value)]
                && receipt.value == Receipt(telemetry.host, |repository.contents|, moment.clock.value)
      ensures receipt.Err? ==>
                repository.contents == old(repository.contents) && repository.rows == old(repository.rows)
    {
      hide Storable, Stores;
      if telemetry.host !in hosts {
        return Err(UnknownNode);
      }
      if moment.clock.None? || moment.clock.value.Naive? {
        StorableIsAware(telemetry, moment);
        return Err(InvalidClock);
      }
      var id := repository.InsertHeartbeat(Record(telemetry, moment.clock.value), moment.broken);
      if id.Err? {
        return Err(NotStored(id.error));
      }
      return Ok(Receipt(telemetry.host, id.value, moment.clock.value));
    }
  }

  lemma StorableIsAware(telemetry: Telemetry, moment: Moment)
    requires moment.clock.Some? ==> moment.clock.value.Naive?
    ensures moment.clock.Some? ==> !Storable(Record(telemetry, moment.clock.value))
  {
  }
}
