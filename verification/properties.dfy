/** What a whole service call does to the file system and the event channel. */
module CallProperties {
  import opened Wrappers
  import opened Text
  import opened Seqs
  import opened Listing
  import opened Naming
  import opened Requests
  import opened Selection
  import opened Ordering
  import opened FileSystem
  import opened Snaptogif

  /** Selected names come from the listing: each is in the source directory, with its time there, and none repeats. */
  lemma SelectedFacts(r: Request, fs: Fs, order: seq<string>)
    requires r.source in fs && IsListing(order, fs[r.source]) && Parsed(r)
    ensures var sel := Selected(r, fs, order);
      && Distinct(Names(sel))
      && forall k :: 0 <= k < |sel| ==> sel[k].name in fs[r.source] && fs[r.source][sel[k].name] == sel[k].mtime
  {
    var es := Entries(order, fs[r.source]);
    var sel := Selected(r, fs, order);
    ListingUnique(order, fs[r.source]);
    SelectIsFilter(r, es);
    FilterUnique(AdmitTest(r), es);
    forall k | 0 <= k < |sel|
      ensures sel[k].name in fs[r.source] && fs[r.source][sel[k].name] == sel[k].mtime
    {
      SelectMembership(r, es, sel[k]);
    }
  }

  /** An empty selection reaches no handler, leaves the file system as it was, and sends no event. */
  lemma EmptySelectionDoesNothing(r: Request, fs: Fs, order: seq<string>, fault: Option<nat>, now: int)
    requires Validated(r, fs) && IsListing(order, fs[r.source]) && Parsed(r)
    requires Selected(r, fs, order) == []
    ensures Invoke(r, fs, order, fault, now) == Completed(fs, None, None)
  {
  }

  /**
   * A timestamp that passes the schema but that `strptime` cannot read raises before any
   * handler runs: no file is touched and no event is sent.
   */
  lemma UnreadableTimestampRaises(r: Request, fs: Fs, order: seq<string>, fault: Option<nat>, now: int)
    requires Validated(r, fs) && IsListing(order, fs[r.source])
    requires (r.begin.raw != EpochStart && r.begin.epoch == None) || (r.end.raw != EpochStart && r.end.epoch == None)
    ensures Invoke(r, fs, order, fault, now) == Raised
  {
  }

  /** A non-empty selection reaches exactly the handler of the called service. */
  lemma DispatchFollowsService(r: Request, fs: Fs, order: seq<string>, fault: Option<nat>, now: int)
    requires Validated(r, fs) && IsListing(order, fs[r.source]) && Parsed(r)
    requires Selected(r, fs, order) != []
    ensures var h := Invoke(r, fs, order, fault, now).dispatched;
      && (h == Some(Encoder) <==> r.service.Start?)
      && (h == Some(Remover) <==> r.service.Delete?)
      && (h == Some(Relocator) <==> r.service.Move?)
  {
  }

  /**
   * `delete` removes the selected names from the source directory up to the first failing
   * file and changes nothing else; it reports, with the selection in order, only when every
   * file went.
   */
  lemma DeleteRemovesSelection(r: Request, fs: Fs, order: seq<string>, fault: Option<nat>, now: int)
    requires r.service.Delete? && r.source in fs && IsListing(order, fs[r.source]) && Parsed(r)
    ensures var o := Invoke(r, fs, order, fault, now);
      var names := Names(Selected(r, fs, order));
      var stop := StopAt(fault, |names|);
      && o.Completed?
      && o.fs == fs[r.source := fs[r.source] - Span(names, 0, stop)]
      && (o.event.Some? <==> |names| > 0 && stop == |names|)
      && (o.event.Some? ==> o.event.value.sourceFiles == names && o.event.value.noFiles == |names|)
  {
    var sel := Selected(r, fs, order);
    var names := Names(sel);
    SelectedFacts(r, fs, order);
    if |names| > 0 {
      RemoveEachProgress(fs[r.source], names, 0, fault);
      var (after, event) := DeleteFiles(r, fs, sel, fault);
      assert Invoke(r, fs, order, fault, now) == Completed(after, Some(Remover), event);
    } else {
      assert Span(names, 0, 0) == {};
      assert fs[r.source] - {} == fs[r.source];
    }
  }

  /** A `delete` with no failure leaves exactly the unselected entries of the source, with their times. */
  lemma DeleteKeepsTheRest(r: Request, fs: Fs, order: seq<string>, now: int, n: string)
    requires r.service.Delete? && r.source in fs && IsListing(order, fs[r.source]) && Parsed(r)
    ensures var o := Invoke(r, fs, order, None, now);
      && (n in o.fs[r.source] <==> n in fs[r.source] && n !in Names(Selected(r, fs, order)))
      && (n in o.fs[r.source] ==> o.fs[r.source][n] == fs[r.source][n])
  {
    var names := Names(Selected(r, fs, order));
    DeleteRemovesSelection(r, fs, order, None, now);
    assert n in Span(names, 0, |names|) <==> n in names;
  }

  /**
   * `move` to a different directory: the destination is created if missing, the selected
   * files up to the first one the destination already held or the first failing one leave
   * the source and arrive in the destination with their times, every other entry and
   * directory is unchanged, and the event is sent only when every file moved.
   */
  lemma MoveRelocatesSelection(r: Request, fs: Fs, order: seq<string>, fault: Option<nat>, now: int)
    requires r.service.Move? && r.source in fs && IsListing(order, fs[r.source]) && Parsed(r)
    requires r.service.destination != r.source
    ensures var o := Invoke(r, fs, order, fault, now);
      var src, dst := r.source, r.service.destination;
      var names := Names(Selected(r, fs, order));
      var stop := StopAt(fault, FirstIn(names, Contents(fs, dst)));
      && o.Completed?
      && (names != [] ==> MovedInto(fs, o.fs, src, dst, Span(names, 0, stop)))
      && (o.event.Some? <==> names != [] && stop == |names|)
      && (o.event.Some? ==> o.event.value.sourceFiles == names && o.event.value.destinationPath == Some(dst))
  {
    var src, dst := r.source, r.service.destination;
    var sel := Selected(r, fs, order);
    var names := Names(sel);
    SelectedFacts(r, fs, order);
    forall k | 0 <= k < |names|
      ensures names[k] in fs[src]
    {
      assert sel[k] in sel;
    }
    RelocateEffect(fs, src, dst, names, fault);
    RelocateProgress(fs, src, dst, names, fault);
  }

  /** `move` into the source directory itself fails on the first file: nothing changes and no event is sent. */
  lemma MoveIntoSourceChangesNothing(r: Request, fs: Fs, order: seq<string>, fault: Option<nat>, now: int)
    requires r.service.Move? && r.source in fs && IsListing(order, fs[r.source]) && Parsed(r)
    requires r.service.destination == r.source
    requires Selected(r, fs, order) != []
    ensures Invoke(r, fs, order, fault, now) == Completed(fs, Some(Relocator), None)
  {
    RelocateIntoItself(fs, r.source, Names(Selected(r, fs, order)), fault);
  }

  /**
   * `start` writes `filename.format` into the destination with the frames in modification-time
   * order, changes no other entry, and reports; a failing frame leaves everything as it was
   * and sends no event.
   */
  lemma StartWritesOutput(r: Request, fs: Fs, order: seq<string>, fault: Option<nat>, now: int)
    requires r.service.Start? && Validated(r, fs) && IsListing(order, fs[r.source]) && Parsed(r)
    requires Selected(r, fs, order) != []
    ensures var o := Invoke(r, fs, order, fault, now);
      var sel := Selected(r, fs, order);
      var dst, out := r.service.destination, OutputName(r.service.filename, r.service.format);
      var frames := Names(SortByMtime(sel));
      && o.Completed?
      && (o.event.Some? <==> StopAt(fault, |sel|) == |sel|)
      && (o.event.None? ==> o.fs == fs)
      && (o.event.Some? ==>
        && o.event.value.file == Some(out)
        && o.event.value.destinationPath == Some(dst)
        && o.event.value.sourceFiles == frames
        && o.fs.Keys == fs.Keys
        && o.fs[dst].Keys == fs[dst].Keys + {out}
        && o.fs[dst][out] == now
        && (forall n :: n in fs[dst] && n != out ==> o.fs[dst][n] == fs[dst][n])
        && (forall p :: p in fs && p != dst ==> o.fs[p] == fs[p]))
  {
    var sel := Selected(r, fs, order);
    var o := Invoke(r, fs, order, fault, now);
    assert o.dispatched == Some(Encoder);
    assert (o.fs, o.event) == CreateOutputFile(r, fs, sel, fault, now);
  }

  /**
   * The frames of `start` are the selection sorted by modification time: the same files,
   * ascending, and files with equal times in selection order.
   */
  lemma EncodeOrder(r: Request, fs: Fs, order: seq<string>, t: int)
    requires r.source in fs && IsListing(order, fs[r.source]) && Parsed(r)
    ensures var sel := Selected(r, fs, order);
      && SortedByMtime(SortByMtime(sel))
      && multiset(SortByMtime(sel)) == multiset(sel)
      && Filter(MtimeIs(t), SortByMtime(sel)) == Filter(MtimeIs(t), sel)
  {
    SortStable(Selected(r, fs, order), t);
  }

  const Snapshots: Fs := map["snaps" := map["a.jpg" := 10, "b.png" := 20, "c.txt" := 15], "out" := map[]]
  const SnapshotOrder: seq<string> := ["c.txt", "b.png", "a.jpg"]
  const NoBound: Stamp := Stamp(EpochStart, None)
  const StartRequest: Request := Request(Start("out", DefaultFilename, DefaultFormat), "snaps", [], NoBound, NoBound)
  const DeleteRequest: Request := Request(Delete, "snaps", ["b.png"], NoBound, NoBound)

  /** Which scenario names pass which whitelist. */
  lemma ScenarioExtensions()
    ensures HasExtension(ImageExtensions, "a.jpg") && HasExtension(ImageExtensions, "b.png")
    ensures !HasExtension(AllExtensions, "c.txt")
  {
    assert "a.jpg"[1..5] == ".jpg" == ImageExtensions[0];
    OccurrenceContains("a.jpg", ".jpg", 1);
    assert "b.png"[1..5] == ".png" == ImageExtensions[1];
    OccurrenceContains("b.png", ".png", 1);
    forall x | x in AllExtensions
      ensures !Contains("c.txt", x)
    {
      ContainsIff("c.txt", x);
      assert x[0] == '.' && x[1] in {'j', 'p', 'm', 'g'};
      assert "c.txt"[0..4][0] == 'c' && "c.txt"[1..5][1] == 't';
    }
  }

  /** The scenario directory, listed in the order `c.txt`, `b.png`, `a.jpg`. */
  lemma ScenarioListing()
    ensures IsListing(SnapshotOrder, Snapshots["snaps"])
    ensures Entries(SnapshotOrder, Snapshots["snaps"]) == [Entry("c.txt", 15), Entry("b.png", 20), Entry("a.jpg", 10)]
  {
  }

  /** `start` with no bounds selects the two images, skipping `c.txt` for its extension. */
  lemma StartScenarioSelection()
    ensures IsListing(SnapshotOrder, Snapshots["snaps"])
    ensures Selected(StartRequest, Snapshots, SnapshotOrder) == [Entry("b.png", 20), Entry("a.jpg", 10)]
  {
    var a, b, c := Entry("a.jpg", 10), Entry("b.png", 20), Entry("c.txt", 15);
    ScenarioListing();
    ScenarioExtensions();
    assert Bound(NoBound) == None;
    assert !Admits(StartRequest, c) && Admits(StartRequest, b) && Admits(StartRequest, a);
    SelectIsFilter(StartRequest, [c, b, a]);
    FilterThree(AdmitTest(StartRequest), c, b, a);
  }

  /** `delete` excluding `b.png` selects only `a.jpg`. */
  lemma DeleteScenarioSelection()
    ensures IsListing(SnapshotOrder, Snapshots["snaps"])
    ensures Selected(DeleteRequest, Snapshots, SnapshotOrder) == [Entry("a.jpg", 10)]
  {
    var a, b, c := Entry("a.jpg", 10), Entry("b.png", 20), Entry("c.txt", 15);
    ScenarioListing();
    ScenarioExtensions();
    assert Bound(NoBound) == None;
    assert ".jpg" == AllExtensions[0];
    assert !Admits(DeleteRequest, c) && !Admits(DeleteRequest, b) && Admits(DeleteRequest, a);
    SelectIsFilter(DeleteRequest, [c, b, a]);
    FilterThree(AdmitTest(DeleteRequest), c, b, a);
  }

  /** `start` into an empty destination with no failure leaves exactly the output file there. */
  lemma StartIntoEmptyDestination(r: Request, fs: Fs, order: seq<string>, now: int)
    requires r.service.Start? && Validated(r, fs) && IsListing(order, fs[r.source]) && Parsed(r)
    requires Selected(r, fs, order) != []
    requires fs[r.service.destination] == map[]
    ensures var o := Invoke(r, fs, order, None, now);
      && o.Completed? && o.event.Some?
      && o.event.value.sourceFiles == Names(SortByMtime(Selected(r, fs, order)))
      && r.service.destination in o.fs
      && o.fs[r.service.destination] == map[OutputName(r.service.filename, r.service.format) := now]
  {
    StartWritesOutput(r, fs, order, None, now);
  }

  /** The two images are encoded in time order, `a.jpg` then `b.png`, into `out/latest.gif`. */
  lemma StartScenario(now: int)
    ensures IsListing(SnapshotOrder, Snapshots["snaps"])
    ensures var o := Invoke(StartRequest, Snapshots, SnapshotOrder, None, now);
      && o.Completed? && o.event.Some?
      && o.event.value.sourceFiles == ["a.jpg", "b.png"]
      && "out" in o.fs && o.fs["out"] == map["latest.gif" := now]
  {
    ScenarioListing();
    StartScenarioSelection();
    ScenarioOrder();
    DefaultOutputName();
    assert Snapshots["out"] == map[] by {
      assert "out" != "snaps";
    }
    StartIntoEmptyDestination(StartRequest, Snapshots, SnapshotOrder, now);
  }

  /** Sorting the two selected images puts the older first. */
  lemma ScenarioOrder()
    ensures Names(SortByMtime([Entry("b.png", 20), Entry("a.jpg", 10)])) == ["a.jpg", "b.png"]
  {
    assert SortByMtime([Entry("b.png", 20), Entry("a.jpg", 10)]) == [Entry("a.jpg", 10), Entry("b.png", 20)];
  }

  /** Deleting with `b.png` excluded removes only `a.jpg`. */
  lemma DeleteScenario()
    ensures IsListing(SnapshotOrder, Snapshots["snaps"])
    ensures var o := Invoke(DeleteRequest, Snapshots, SnapshotOrder, None, 30);
      o.Completed? && "snaps" in o.fs && o.fs["snaps"] == map["b.png" := 20, "c.txt" := 15]
  {
    ScenarioListing();
    DeleteScenarioSelection();
    assert Names(Selected(DeleteRequest, Snapshots, SnapshotOrder)) == ["a.jpg"];
    DeleteRemovesSelection(DeleteRequest, Snapshots, SnapshotOrder, None, 30);
    assert Span(["a.jpg"], 0, 1) == {"a.jpg"};
  }
}
