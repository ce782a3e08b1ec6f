/**
 * A directory as the component sees it: `os.listdir` gives names in an order the
 * operating system chooses, and `os.path.getmtime` gives each name's modification time.
 */
module Listing {
  import opened Seqs

  /** One file of a listing: its name and its modification time (whole seconds). */
  datatype Entry = Entry(name: string, mtime: int)

  /** The entries of one directory: name to modification time. */
  type Dir = map<string, int>

  function Names(es: seq<Entry>): seq<string> {
    seq(|es|, i requires 0 <= i < |es| => es[i].name)
  }

  /** `order` is one possible result of listing `d`: each name of `d` exactly once. */
  predicate IsListing(order: seq<string>, d: Dir) {
    Distinct(order) && (forall n :: n in order ==> n in d) && forall n :: n in d ==> n in order
  }

  /** Pairs each listed name with its modification time in `d`, keeping the listing order. */
  function Entries(order: seq<string>, d: Dir): (es: seq<Entry>)
    requires forall n :: n in order ==> n in d
    ensures Names(es) == order
    ensures forall e :: e in es ==> e.name in d && d[e.name] == e.mtime
    decreases |order|
  {
    if |order| == 0 then []
    else [Entry(order[0], d[order[0]])] + Entries(order[1..], d)
  }

  /** A listing without repeated names yields entries without repeated names. */
  lemma ListingUnique(order: seq<string>, d: Dir)
    requires IsListing(order, d)
    ensures Distinct(Names(Entries(order, d)))
  {
  }

  /** Filtering never introduces a repeated name. */
  lemma {:induction false} FilterUnique(p: Entry -> bool, es: seq<Entry>)
    requires Distinct(Names(es))
    ensures Distinct(Names(Filter(p, es)))
    decreases |es|
  {
    if |es| > 0 {
      assert Names(es[1..]) == Names(es)[1..];
      FilterUnique(p, es[1..]);
      var rest := Filter(p, es[1..]);
      if p(es[0]) {
        forall j | 0 <= j < |rest|
          ensures rest[j].name != es[0].name
        {
          assert rest[j] in es[1..];
          var k :| 0 <= k < |es[1..]| && es[1..][k] == rest[j];
          assert Names(es)[k + 1] == rest[j].name && Names(es)[0] == es[0].name;
        }
        var r := [es[0]] + rest;
        assert forall j :: 1 <= j < |r| ==> Names(r)[j] == Names(rest)[j - 1];
      }
    }
  }
}
