/**
 * Which files of the source directory a service call acts on: an extension whitelist that
 * depends on the service, the exclusion list, and an optional inclusive modification-time window.
 */
module Selection {
  import opened Wrappers
  import opened Text
  import opened Seqs
  import opened Listing
  import opened Naming
  import opened Requests

  /** Extensions `start` encodes: still images only. */
  const ImageExtensions: seq<string> := [".jpg", ".png"]

  /** Extensions `delete` and `move` act on: images and the encoder's own outputs. */
  const AllExtensions: seq<string> := [".jpg", ".png", ".mp4", ".gif"]

  function Extensions(s: Service): seq<string> {
    if s.Start? then ImageExtensions else AllExtensions
  }

  /** `any(x in name for x in exts)`: some extension occurs ANYWHERE in the name, not only at its end. */
  predicate HasExtension(exts: seq<string>, name: string) {
    exists x :: x in exts && Contains(name, x)
  }

  /** The first comprehension's condition: a whitelisted extension and not excluded by exact name. */
  predicate Candidate(s: Service, exclude: seq<string>, e: Entry) {
    HasExtension(Extensions(s), e.name) && e.name !in exclude
  }

  function CandidateTest(s: Service, exclude: seq<string>): Entry -> bool {
    e => Candidate(s, exclude, e)
  }

  function Candidates(s: Service, exclude: seq<string>, listing: seq<Entry>): seq<Entry> {
    Filter(CandidateTest(s, exclude), listing)
  }

  /** The inclusive window: an absent bound does not constrain its side. */
  predicate InWindow(lo: Option<int>, hi: Option<int>, t: int) {
    (lo == None || lo.value <= t) && (hi == None || t <= hi.value)
  }

  function WindowTest(lo: Option<int>, hi: Option<int>): Entry -> bool {
    (e: Entry) => InWindow(lo, hi, e.mtime)
  }

  /** The time filter as the component applies it: one comprehension per combination of given bounds. */
  function Window(lo: Option<int>, hi: Option<int>, xs: seq<Entry>): seq<Entry> {
    match (lo, hi)
    case (Some(b), Some(f)) => Filter((e: Entry) => e.mtime >= b && e.mtime <= f, xs)
    case (Some(b), None) => Filter((e: Entry) => e.mtime >= b, xs)
    case (None, Some(f)) => Filter((e: Entry) => e.mtime <= f, xs)
    case (None, None) => xs
  }

  /** The selection a request makes from a directory listing. */
  function Select(r: Request, listing: seq<Entry>): seq<Entry>
    requires Parsed(r)
  {
    Window(Bound(r.begin), Bound(r.end), Candidates(r.service, r.exclude, listing))
  }

  /** Reference definition: every test at once, on one entry. */
  predicate Admits(r: Request, e: Entry)
    requires Parsed(r)
  {
    Candidate(r.service, r.exclude, e) && InWindow(Bound(r.begin), Bound(r.end), e.mtime)
  }

  function AdmitTest(r: Request): Entry -> bool
    requires Parsed(r)
  {
    e => Admits(r, e)
  }

  /** The branch-per-case time filter is one filter by the inclusive window. */
  lemma WindowIsFilter(lo: Option<int>, hi: Option<int>, xs: seq<Entry>)
    ensures Window(lo, hi, xs) == Filter(WindowTest(lo, hi), xs)
  {
    var w := WindowTest(lo, hi);
    match (lo, hi)
    case (Some(b), Some(f)) =>
      FilterCongruent((e: Entry) => e.mtime >= b && e.mtime <= f, w, xs);
    case (Some(b), None) =>
      FilterCongruent((e: Entry) => e.mtime >= b, w, xs);
    case (None, Some(f)) =>
      FilterCongruent((e: Entry) => e.mtime <= f, w, xs);
    case (None, None) =>
      FilterKeepsAll(w, xs);
  }

  /** The two stages of the selection are one filter by the reference definition. */
  lemma SelectIsFilter(r: Request, listing: seq<Entry>)
    requires Parsed(r)
    ensures Select(r, listing) == Filter(AdmitTest(r), listing)
  {
    var lo, hi := Bound(r.begin), Bound(r.end);
    var c := CandidateTest(r.service, r.exclude);
    var w := WindowTest(lo, hi);
    WindowIsFilter(lo, hi, Filter(c, listing));
    FilterFusion(c, w, AdmitTest(r), listing);
  }

  /** The selection keeps listing order: it is a subsequence of the listing. */
  lemma SelectIsSubseq(r: Request, listing: seq<Entry>)
    requires Parsed(r)
    ensures IsSubseq(Select(r, listing), listing)
  {
    SelectIsFilter(r, listing);
    FilterIsSubseq(AdmitTest(r), listing);
  }

  /** An entry is selected exactly when it is listed and passes every test. */
  lemma SelectMembership(r: Request, listing: seq<Entry>, e: Entry)
    requires Parsed(r)
    ensures e in Select(r, listing) <==> e in listing && Admits(r, e)
  {
    SelectIsFilter(r, listing);
  }

  /** Every selected name contains a whitelisted extension of the requested service. */
  lemma SelectedHaveExtension(r: Request, listing: seq<Entry>, e: Entry)
    requires Parsed(r)
    requires e in Select(r, listing)
    ensures exists x :: x in Extensions(r.service) && Contains(e.name, x)
  {
    SelectMembership(r, listing, e);
  }

  /** `start` never selects a name that contains neither `.jpg` nor `.png` (a video or a GIF, say). */
  lemma StartSkipsNonImages(r: Request, listing: seq<Entry>, e: Entry)
    requires Parsed(r)
    requires r.service.Start?
    requires !Contains(e.name, ".jpg") && !Contains(e.name, ".png")
    ensures e !in Select(r, listing)
  {
    SelectMembership(r, listing, e);
  }

  /** No selected name is on the exclusion list, whatever the time bounds. */
  lemma ExcludedNeverSelected(r: Request, listing: seq<Entry>, e: Entry)
    requires Parsed(r)
    requires e.name in r.exclude
    ensures e !in Select(r, listing)
  {
    SelectMembership(r, listing, e);
  }

  /** With only a begin bound, every selected file is at or after it. */
  lemma BeginOnly(r: Request, listing: seq<Entry>, e: Entry)
    requires Parsed(r)
    requires r.begin.raw != EpochStart && r.end.raw == EpochStart
    requires e in Select(r, listing)
    ensures e.mtime >= r.begin.epoch.value
  {
    SelectMembership(r, listing, e);
  }

  /** With only an end bound, every selected file is at or before it. */
  lemma EndOnly(r: Request, listing: seq<Entry>, e: Entry)
    requires Parsed(r)
    requires r.begin.raw == EpochStart && r.end.raw != EpochStart
    requires e in Select(r, listing)
    ensures e.mtime <= r.end.epoch.value
  {
    SelectMembership(r, listing, e);
  }

  /** With both bounds, every selected file lies in the closed interval. */
  lemma BothBounds(r: Request, listing: seq<Entry>, e: Entry)
    requires Parsed(r)
    requires r.begin.raw != EpochStart && r.end.raw != EpochStart
    requires e in Select(r, listing)
    ensures r.begin.epoch.value <= e.mtime <= r.end.epoch.value
  {
    SelectMembership(r, listing, e);
  }

  /** A listed file that passes the extension and exclusion tests and lies in the window is kept. */
  lemma WindowComplete(r: Request, listing: seq<Entry>, e: Entry)
    requires Parsed(r)
    requires e in listing && Candidate(r.service, r.exclude, e)
    requires r.begin.raw != EpochStart ==> r.begin.epoch.value <= e.mtime
    requires r.end.raw != EpochStart ==> e.mtime <= r.end.epoch.value
    ensures e in Select(r, listing)
  {
    SelectMembership(r, listing, e);
  }

  /** Both timestamps at the sentinel: no time filtering, the first comprehension alone decides. */
  lemma SentinelsMeanNoWindow(r: Request, listing: seq<Entry>)
    requires Parsed(r)
    requires r.begin.raw == EpochStart && r.end.raw == EpochStart
    ensures Select(r, listing) == Candidates(r.service, r.exclude, listing)
  {
  }

  /**
   * The selection depends on a timestamp parameter only through its string and, when that
   * is not the sentinel, its converted time: a sentinel's time is never consulted.
   */
  lemma SelectSeesOnlyBounds(r: Request, listing: seq<Entry>, begin: Stamp, end: Stamp)
    requires Parsed(r)
    requires begin.raw == r.begin.raw && (begin.raw != EpochStart ==> begin.epoch == r.begin.epoch)
    requires end.raw == r.end.raw && (end.raw != EpochStart ==> end.epoch == r.end.epoch)
    ensures Parsed(r.(begin := begin, end := end))
    ensures Select(r.(begin := begin, end := end), listing) == Select(r, listing)
  {
  }

  /** A begin bound after the end bound selects nothing. */
  lemma InvertedWindowSelectsNothing(r: Request, listing: seq<Entry>)
    requires Parsed(r)
    requires r.begin.raw != EpochStart && r.end.raw != EpochStart
    requires r.begin.epoch.value > r.end.epoch.value
    ensures Select(r, listing) == []
  {
    var s := Select(r, listing);
    if s != [] {
      BothBounds(r, listing, s[0]);
    }
  }

  /** The whitelist test is a substring test: a name with `.jpg` in its middle passes `start`'s whitelist. */
  lemma SubstringNotSuffix()
    ensures HasExtension(ImageExtensions, "report.jpgnotes.txt")
  {
    assert OccursAt("report.jpgnotes.txt", ".jpg", 6);
    OccurrenceContains("report.jpgnotes.txt", ".jpg", 6);
    assert ".jpg" in ImageExtensions;
  }

  /** A generated output name is never picked up again by `start`, but `delete` and `move` select it. */
  lemma OutputNameSelection(filename: string, format: Format)
    requires ValidFilename(filename)
    ensures !HasExtension(ImageExtensions, OutputName(filename, format))
    ensures HasExtension(AllExtensions, OutputName(filename, format))
  {
    var out := OutputName(filename, format);
    var n := |filename|;
    forall x | x in ImageExtensions
      ensures !Contains(out, x)
    {
      assert x[0] == '.' && (x[1] == 'j' || x[1] == 'p');
      forall i | 0 <= i
        ensures !OccursAt(out, x, i)
      {
        if i + |x| <= |out| {
          if i == n {
            assert out[i + 1] == FormatName(format)[0] != x[1];
          } else {
            assert out[i] != '.';
          }
          assert out[i..i + |x|][0] == out[i] && out[i..i + |x|][1] == out[i + 1];
        }
      }
      ContainsIff(out, x);
    }
    var x := "." + FormatName(format);
    assert out[n..n + 4] == x;
    OccurrenceContains(out, x, n);
    assert x == AllExtensions[2] || x == AllExtensions[3] by {
      match format
      case Gif =>
      case Mp4 =>
    }
  }
}
