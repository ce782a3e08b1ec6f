/**
 * The encoder's frame order: `files.sort(key=getmtime)`. Python's sort is stable, so files
 * with equal modification times keep their order in the selection.
 */
module Ordering {
  import opened Seqs
  import opened Listing

  predicate SortedByMtime(s: seq<Entry>) {
    forall i, j :: 0 <= i < j < |s| ==> s[i].mtime <= s[j].mtime
  }

  /** The entries with modification time `t`, used to state stability. */
  function MtimeIs(t: int): Entry -> bool {
    (e: Entry) => e.mtime == t
  }

  /** Inserts `e` into a sorted sequence ahead of every entry that is not older than it. */
  function Insert(e: Entry, s: seq<Entry>): (r: seq<Entry>)
    requires SortedByMtime(s)
    ensures SortedByMtime(r)
    ensures |r| == |s| + 1
    ensures r[0] == e || (|s| > 0 && r[0] == s[0])
    decreases |s|
  {
    if |s| == 0 || e.mtime <= s[0].mtime then [e] + s
    else
      var rest := Insert(e, s[1..]);
      var r := [s[0]] + rest;
      assert forall j :: 1 <= j < |r| ==> r[j] == rest[j - 1];
      assert forall j :: 1 <= j < |r| ==> s[0].mtime <= r[j].mtime;
      r
  }

  /** Insertion adds `e` and keeps every other entry. */
  lemma {:induction false} InsertPermutes(e: Entry, s: seq<Entry>)
    requires SortedByMtime(s)
    ensures multiset(Insert(e, s)) == multiset(s) + multiset{e}
    decreases |s|
  {
    if |s| > 0 && e.mtime > s[0].mtime {
      InsertPermutes(e, s[1..]);
      assert s == [s[0]] + s[1..];
    }
  }

  /** Insertion sort by modification time, taking entries from the back so that earlier ones win ties. */
  function SortByMtime(xs: seq<Entry>): (r: seq<Entry>)
    ensures SortedByMtime(r)
    ensures multiset(r) == multiset(xs)
    decreases |xs|
  {
    if |xs| == 0 then []
    else
      assert xs == [xs[0]] + xs[1..];
      InsertPermutes(xs[0], SortByMtime(xs[1..]));
      Insert(xs[0], SortByMtime(xs[1..]))
  }

  /** Inserting `e` puts it first among the entries of its own modification time. */
  lemma {:induction false} InsertStable(e: Entry, s: seq<Entry>, t: int)
    requires SortedByMtime(s)
    ensures Filter(MtimeIs(t), Insert(e, s)) == (if e.mtime == t then [e] else []) + Filter(MtimeIs(t), s)
    decreases |s|
  {
    var p := MtimeIs(t);
    if |s| == 0 || e.mtime <= s[0].mtime {
      assert Insert(e, s) == [e] + s;
      FilterCons(p, e, s);
    } else {
      var rest := Insert(e, s[1..]);
      assert Insert(e, s) == [s[0]] + rest;
      InsertStable(e, s[1..], t);
      FilterCons(p, s[0], rest);
      assert s == [s[0]] + s[1..];
      FilterCons(p, s[0], s[1..]);
      if e.mtime == t {
        assert !p(s[0]);
      }
    }
  }

  /** Stability: for every modification time, the frames with that time keep their selection order. */
  lemma {:induction false} SortStable(xs: seq<Entry>, t: int)
    ensures Filter(MtimeIs(t), SortByMtime(xs)) == Filter(MtimeIs(t), xs)
    decreases |xs|
  {
    if |xs| > 0 {
      SortStable(xs[1..], t);
      InsertStable(xs[0], SortByMtime(xs[1..]), t);
      FilterCons(MtimeIs(t), xs[0], xs[1..]);
      assert xs == [xs[0]] + xs[1..];
    }
  }

  /** The sort neither adds nor drops a file. */
  lemma SortSameEntries(xs: seq<Entry>, e: Entry)
    ensures e in SortByMtime(xs) <==> e in xs
  {
    assert e in SortByMtime(xs) <==> e in multiset(SortByMtime(xs));
  }

  /** Frames with modification times 3, 1, 2 are encoded in the order 1, 2, 3. */
  lemma SortExample()
    ensures SortByMtime([Entry("c", 3), Entry("a", 1), Entry("b", 2)])
         == [Entry("a", 1), Entry("b", 2), Entry("c", 3)]
  {
  }
}
