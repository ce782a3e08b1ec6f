/**
 * One service call end to end: select files from the source directory, dispatch a
 * non-empty selection to the handler of the called service, apply its effect to the file
 * system, and publish one event when the handler finishes without an error.
 */
module Snaptogif {
  import opened Wrappers
  import opened Listing
  import opened Naming
  import opened Requests
  import opened Selection
  import opened Ordering
  import opened FileSystem

  /** The handler a non-empty selection is passed to: `createOutputfile`, `deletefiles` or `movefiles`. */
  datatype Handler = Encoder | Remover | Relocator

  /** The payload published on the `snaptogif` channel; `file` and `destinationPath` appear only for some services. */
  datatype Event = Event(
    kind: string,
    file: Option<string>,
    destinationPath: Option<string>,
    beginTimestamp: string,
    endTimestamp: string,
    noFiles: nat,
    sourcePath: string,
    sourceFiles: seq<string>)

  /**
   * A call the schema refuses; one whose timestamp conversion raised before any file was
   * touched; or one that ran: the file system after it, the handler it reached, the event it sent.
   */
  datatype Outcome =
    | Rejected
    | Raised
    | Completed(fs: Fs, dispatched: Option<Handler>, event: Option<Event>)

  /**
   * What the services' schemas check against the file system before the call runs: the
   * source is a directory, and for `start` the destination is one too and the filename
   * matches the pattern. The timestamp pattern is not modelled.
   */
  predicate Validated(r: Request, fs: Fs) {
    && r.source in fs
    && (r.service.Start? ==> r.service.destination in fs && ValidFilename(r.service.filename))
  }

  /** An empty selection reaches no handler; a non-empty one reaches the handler of its service. */
  function Dispatch(s: Service, files: seq<string>): Option<Handler> {
    if |files| == 0 then None
    else
      match s
      case Start(_, _, _) => Some(Encoder)
      case Delete => Some(Remover)
      case Move(_) => Some(Relocator)
  }

  /** The files a call selects from the source directory, listed in the order `order`. */
  function Selected(r: Request, fs: Fs, order: seq<string>): seq<Entry>
    requires r.source in fs && IsListing(order, fs[r.source]) && Parsed(r)
  {
    Select(r, Entries(order, fs[r.source]))
  }

  /** `createOutputfile`: sort by modification time, encode one frame per file, then report. */
  function CreateOutputFile(r: Request, fs: Fs, files: seq<Entry>, fault: Option<nat>, now: int): (res: (Fs, Option<Event>))
    requires r.service.Start?
    ensures var dst, out := r.service.destination, OutputName(r.service.filename, r.service.format);
      && (res.1.Some? <==> dst in fs && StopAt(fault, |files|) == |files|)
      && (res.1.None? ==> res.0 == fs)
      && (res.1.Some? ==>
        && res.1.value.file == Some(out)
        && res.1.value.destinationPath == Some(dst)
        && res.1.value.sourceFiles == Names(SortByMtime(files))
        && res.1.value.noFiles == |files|
        && res.0.Keys == fs.Keys
        && res.0[dst].Keys == fs[dst].Keys + {out}
        && res.0[dst][out] == now
        && (forall n :: n in fs[dst] && n != out ==> res.0[dst][n] == fs[dst][n])
        && (forall p :: p in fs && p != dst ==> res.0[p] == fs[p]))
  {
    var out := OutputName(r.service.filename, r.service.format);
    var frames := Names(SortByMtime(files));
    assert |frames| == |multiset(SortByMtime(files))| == |files|;
    match WriteOutput(fs, r.service.destination, out, frames, fault, now)
    case None => (fs, None)
    case Some(written) =>
      (written, Some(Event(ServiceName(r.service), Some(out), Some(r.service.destination),
                           r.begin.raw, r.end.raw, |frames|, r.source, frames)))
  }

  /** `deletefiles`: remove each file from the source directory, then report. */
  function DeleteFiles(r: Request, fs: Fs, files: seq<Entry>, fault: Option<nat>): (Fs, Option<Event>)
    requires r.source in fs
  {
    var names := Names(files);
    var run := RemoveEach(fs[r.source], names, 0, fault);
    (fs[r.source := run.state],
     if run.done == |names|
     then Some(Event(ServiceName(r.service), None, None, r.begin.raw, r.end.raw, |names|, r.source, names))
     else None)
  }

  /** `movefiles`: create the destination if it is missing, move each file into it, then report. */
  function MoveFiles(r: Request, fs: Fs, files: seq<Entry>, fault: Option<nat>): (Fs, Option<Event>)
    requires r.service.Move? && r.source in fs
  {
    var dst := r.service.destination;
    var names := Names(files);
    var run := Relocate(fs, r.source, dst, names, fault);
    (run.state,
     if run.done == |names|
     then Some(Event(ServiceName(r.service), None, Some(dst), r.begin.raw, r.end.raw, |names|, r.source, names))
     else None)
  }

  /**
   * `SnapToGIF`: the shared entry point of the three services. `order` is the order in
   * which the source directory is listed, `fault` an I/O failure on one file, `now` the
   * time at which an output is written.
   */
  function Invoke(r: Request, fs: Fs, order: seq<string>, fault: Option<nat>, now: int): (o: Outcome)
    requires r.source in fs ==> IsListing(order, fs[r.source])
    ensures o.Rejected? <==> !Validated(r, fs)
    ensures o.Raised? <==> Validated(r, fs) && !Parsed(r)
    ensures o.Completed? ==> (o.dispatched == None <==> |Selected(r, fs, order)| == 0)
    ensures o.Completed? && o.dispatched == None ==> o.fs == fs && o.event == None
    ensures o.Completed? && o.event.Some? ==>
      && o.event.value.kind == ServiceName(r.service)
      && o.event.value.noFiles == |Selected(r, fs, order)| > 0
      && o.event.value.sourcePath == r.source
      && o.event.value.beginTimestamp == r.begin.raw
      && o.event.value.endTimestamp == r.end.raw
  {
    if !Validated(r, fs) then Rejected
    else if !Parsed(r) then Raised
    else
      var files := Selected(r, fs, order);
      var h := Dispatch(r.service, Names(files));
      if h == None then Completed(fs, None, None)
      else
        var (after, event) :=
          match r.service
          case Start(_, _, _) => CreateOutputFile(r, fs, files, fault, now)
          case Delete => DeleteFiles(r, fs, files, fault)
          case Move(_) => MoveFiles(r, fs, files, fault);
        Completed(after, h, event)
  }
}
