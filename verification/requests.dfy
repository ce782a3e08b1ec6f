/** A service call after schema validation: which service, its parameters, and the time bounds. */
module Requests {
  import opened Wrappers
  import opened Naming

  /** The three registered services, each carrying only the parameters its schema declares. */
  datatype Service =
    | Start(destination: string, filename: string, format: Format)
    | Delete
    | Move(destination: string)

  /** The service name as registered and as echoed in the event's `type` field. */
  function ServiceName(s: Service): string {
    match s
    case Start(_, _, _) => "start"
    case Delete => "delete"
    case Move(_) => "move"
  }

  /** The default of both timestamp parameters; a request carrying it leaves that side unbounded. */
  const EpochStart: string := "01/01/1970 00:00:00"

  /**
   * A timestamp parameter: the string the caller passed and what
   * `time.mktime(datetime.strptime(raw, "%d/%m/%Y %H:%M:%S").timetuple())` makes of it, the
   * local-time epoch seconds, or None when `strptime` raises. The schema's timestamp pattern
   * checks digit classes only and is not anchored at the end, so strings such as
   * `31/02/2024 00:00:00` pass it and then fail to convert. The conversion depends on the
   * host's time zone and date library, so it is an input here. It is only attempted when
   * `raw` is not the sentinel.
   */
  datatype Stamp = Stamp(raw: string, epoch: Option<int>)

  datatype Request = Request(service: Service, source: string, exclude: seq<string>, begin: Stamp, end: Stamp)

  /** The conversion of a timestamp parameter succeeds, or is never attempted because it is the sentinel. */
  predicate Readable(s: Stamp) {
    s.raw == EpochStart || s.epoch.Some?
  }

  /** Both timestamp parameters of a request convert without raising. */
  predicate Parsed(r: Request) {
    Readable(r.begin) && Readable(r.end)
  }

  /**
   * The bound a timestamp parameter imposes. The test is string equality with the sentinel,
   * so a caller who passes exactly that date gets no bound at all.
   */
  function Bound(s: Stamp): Option<int>
    requires Readable(s)
  {
    if s.raw != EpochStart then Some(s.epoch.value) else None
  }
}
