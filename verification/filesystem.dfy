/**
 * The effects of the three handlers on an abstract file system. Each handler loops over the
 * selected files inside one `try`: the first failing call ends the loop, nothing is rolled
 * back, and no event follows. An I/O failure the model cannot see (permissions, a full disk,
 * a codec error) is the `fault` parameter: the index of the file whose call raises.
 */
module FileSystem {
  import opened Wrappers
  import opened Seqs
  import opened Listing

  /** An abstract file system: directory path to its entries. */
  type Fs = map<string, Dir>

  /** How far a per-file loop got: the state it leaves and how many files it finished. */
  datatype Run<S> = Run(state: S, done: nat)

  /** The names at positions `i` up to (not including) `j`. */
  function Span(names: seq<string>, i: int, j: int): set<string>
    requires 0 <= i <= j <= |names|
  {
    set k | i <= k < j :: names[k]
  }

  /** Peeling the first position off a span. */
  lemma SpanStep(names: seq<string>, i: int, j: int)
    requires 0 <= i < j <= |names|
    ensures Span(names, i, j) == {names[i]} + Span(names, i + 1, j)
  {
  }

  /** The entries of directory `path`; a directory that does not exist holds none. */
  function Contents(fs: Fs, path: string): Dir {
    if path in fs then fs[path] else map[]
  }

  /** `os.makedirs(path)` when `os.path.exists(path)` is false; an existing directory is left alone. */
  function EnsureDir(fs: Fs, path: string): (r: Fs)
    ensures path in r
    ensures r.Keys == fs.Keys + {path}
    ensures forall p :: p in fs ==> r[p] == fs[p]
    ensures path !in fs ==> r[path] == map[]
  {
    if path in fs then fs else fs[path := map[]]
  }

  /**
   * `for file in files: os.remove(...)` from position `i` on. `os.remove` raises on a name
   * that is not (or no longer) in the directory.
   */
  function RemoveEach(d: Dir, names: seq<string>, i: nat, fault: Option<nat>): (r: Run<Dir>)
    requires i <= |names|
    ensures i <= r.done <= |names|
    ensures r.state == d - Span(names, i, r.done)
    ensures forall k :: i <= k < r.done ==> fault != Some(k)
    ensures r.done < |names| ==> names[r.done] !in r.state || fault == Some(r.done)
    decreases |names| - i
  {
    if i == |names| || names[i] !in d || fault == Some(i) then Run(d, i)
    else
      var r := RemoveEach(d - {names[i]}, names, i + 1, fault);
      SpanStep(names, i, r.done);
      r
  }

  /**
   * `for file in files: shutil.move(src/file, dst)` from position `i` on, as the pair of the
   * source directory `from` and the destination directory `into`. With a directory as target,
   * `shutil.move` raises when the target already holds that name, and a moved file keeps its
   * modification time. When source and destination are the same directory, every name is
   * either missing from it or already there, so the loop fails on its first file.
   */
  function MoveEach(from: Dir, into: Dir, names: seq<string>, i: nat, fault: Option<nat>): (r: Run<(Dir, Dir)>)
    requires i <= |names|
    ensures i <= r.done <= |names|
    ensures from == into ==> r == Run((from, into), i)
    ensures forall k :: i <= k < r.done ==> fault != Some(k)
    ensures r.done < |names| ==>
      names[r.done] !in r.state.0 || names[r.done] in r.state.1 || fault == Some(r.done)
    decreases |names| - i
  {
    if i == |names| || names[i] !in from || names[i] in into || fault == Some(i) then Run((from, into), i)
    else
      var n := names[i];
      MoveEach(from - {n}, into[n := from[n]], names, i + 1, fault)
  }

  /**
   * The encoder writing `dst/out` with one frame per selected file. The writer cannot open a
   * file in a missing directory; an existing file of that name is replaced. The time the
   * output is written is the clock input `now`.
   */
  function WriteOutput(fs: Fs, dst: string, out: string, frames: seq<string>, fault: Option<nat>, now: int): (r: Option<Fs>)
    ensures r.Some? <==> dst in fs && !(fault.Some? && fault.value < |frames|)
    ensures r.Some? ==> r.value.Keys == fs.Keys && r.value[dst].Keys == fs[dst].Keys + {out}
    ensures r.Some? ==> r.value[dst][out] == now
    ensures r.Some? ==> forall n :: n in fs[dst] && n != out ==> r.value[dst][n] == fs[dst][n]
    ensures r.Some? ==> forall p :: p in fs && p != dst ==> r.value[p] == fs[p]
  {
    if dst !in fs || (fault.Some? && fault.value < |frames|) then None
    else Some(fs[dst := fs[dst][out := now]])
  }

  /** A move loop removes exactly the moved names from the source directory. */
  lemma {:induction false} MoveEachSource(from: Dir, into: Dir, names: seq<string>, i: nat, fault: Option<nat>)
    requires i <= |names|
    ensures var r := MoveEach(from, into, names, i, fault);
      r.state.0 == from - Span(names, i, r.done)
    decreases |names| - i
  {
    var r := MoveEach(from, into, names, i, fault);
    if i < |names| && names[i] in from && names[i] !in into && fault != Some(i) {
      var n := names[i];
      MoveEachSource(from - {n}, into[n := from[n]], names, i + 1, fault);
      SpanStep(names, i, r.done);
    }
  }

  /** A move loop adds exactly the moved names to the destination directory. */
  lemma {:induction false} MoveEachDestinationKeys(from: Dir, into: Dir, names: seq<string>, i: nat, fault: Option<nat>)
    requires i <= |names|
    ensures var r := MoveEach(from, into, names, i, fault);
      r.state.1.Keys == into.Keys + Span(names, i, r.done)
    decreases |names| - i
  {
    var r := MoveEach(from, into, names, i, fault);
    if i < |names| && names[i] in from && names[i] !in into && fault != Some(i) {
      var n := names[i];
      MoveEachDestinationKeys(from - {n}, into[n := from[n]], names, i + 1, fault);
      SpanStep(names, i, r.done);
    }
  }

  /** A move loop leaves the destination's earlier entries untouched. */
  lemma {:induction false} MoveEachKeepsDestination(from: Dir, into: Dir, names: seq<string>, i: nat, fault: Option<nat>, n: string)
    requires i <= |names|
    requires n in into
    ensures var r := MoveEach(from, into, names, i, fault);
      n in r.state.1 && r.state.1[n] == into[n]
    decreases |names| - i
  {
    if i < |names| && names[i] in from && names[i] !in into && fault != Some(i) {
      var m := names[i];
      MoveEachKeepsDestination(from - {m}, into[m := from[m]], names, i + 1, fault, n);
    }
  }

  /**
   * Each name a move loop moved came from the source, was absent from the destination, and
   * arrives there with its modification time.
   */
  lemma {:induction false} MoveEachCarriesTimes(from: Dir, into: Dir, names: seq<string>, i: nat, fault: Option<nat>, n: string)
    requires i <= |names|
    ensures var r := MoveEach(from, into, names, i, fault);
      n in Span(names, i, r.done) ==> n in from && n !in into && n in r.state.1 && r.state.1[n] == from[n]
    decreases |names| - i
  {
    var r := MoveEach(from, into, names, i, fault);
    if i < |names| && names[i] in from && names[i] !in into && fault != Some(i) {
      var m := names[i];
      SpanStep(names, i, r.done);
      if n == m {
        MoveEachKeepsDestination(from - {m}, into[m := from[m]], names, i + 1, fault, n);
      } else {
        MoveEachCarriesTimes(from - {m}, into[m := from[m]], names, i + 1, fault, n);
      }
    }
  }

  /**
   * The body of `movefiles` on the whole file system: create the destination if it is
   * missing, then run the move loop between the source and the destination directory.
   */
  function Relocate(fs: Fs, src: string, dst: string, names: seq<string>, fault: Option<nat>): Run<Fs>
    requires src in fs
  {
    var fs1 := EnsureDir(fs, dst);
    var run := MoveEach(fs1[src], fs1[dst], names, 0, fault);
    Run(fs1[src := run.state.0][dst := run.state.1], run.done)
  }

  /**
   * `after` is `fs` with the files `moved` taken out of directory `src` and put into
   * directory `dst` with their modification times. `dst` exists afterwards; the files it
   * held keep their times, and no other directory changes.
   */
  predicate MovedInto(fs: Fs, after: Fs, src: string, dst: string, moved: set<string>)
    requires src in fs
  {
    var before := Contents(fs, dst);
    && after.Keys == fs.Keys + {dst}
    && src in after && dst in after
    && after[src] == fs[src] - moved
    && after[dst].Keys == before.Keys + moved
    && (forall n :: n in before ==> after[dst][n] == before[n])
    && (forall n :: n in moved ==> n in fs[src] && after[dst][n] == fs[src][n])
    && (forall p :: p in fs && p != src && p != dst ==> after[p] == fs[p])
  }

  /**
   * Relocating stops at the first file that is missing from the source, is already in the
   * destination (from before or moved there earlier in the loop), or fails; the files before
   * it leave the source and arrive in the (possibly new) destination with their times, and
   * every other entry and directory is unchanged.
   */
  lemma RelocateEffect(fs: Fs, src: string, dst: string, names: seq<string>, fault: Option<nat>)
    requires src in fs
    ensures var r := Relocate(fs, src, dst, names, fault);
      && r.done <= |names|
      && (forall k :: 0 <= k < r.done ==> fault != Some(k))
      && (r.done < |names| ==>
            var n := names[r.done];
            n !in fs[src] || n in Contents(fs, dst) || n in Span(names, 0, r.done) || fault == Some(r.done))
      && MovedInto(fs, r.state, src, dst, Span(names, 0, r.done))
  {
    if src == dst {
      RelocateIntoItself(fs, src, names, fault);
    } else {
      var fs1 := EnsureDir(fs, dst);
      var from, into := fs1[src], fs1[dst];
      var r := Relocate(fs, src, dst, names, fault);
      MoveEachSource(from, into, names, 0, fault);
      MoveEachDestinationKeys(from, into, names, 0, fault);
      forall n | n in into
        ensures r.state[dst][n] == into[n]
      {
        MoveEachKeepsDestination(from, into, names, 0, fault, n);
      }
      forall n | n in Span(names, 0, r.done)
        ensures n in from && r.state[dst][n] == from[n]
      {
        MoveEachCarriesTimes(from, into, names, 0, fault, n);
      }
    }
  }

  /** The position of the first name that `d` already holds, or the length when there is none. */
  function FirstIn(names: seq<string>, d: Dir): (k: nat)
    ensures k <= |names|
    ensures forall j :: 0 <= j < k ==> names[j] !in d
    ensures k < |names| ==> names[k] in d
  {
    if names == [] || names[0] in d then 0 else 1 + FirstIn(names[1..], d)
  }

  /**
   * Relocating distinct names, all in the source, to a different directory stops exactly at
   * the first name the destination already held or at the failing file, whichever comes
   * first, and completes when there is neither.
   */
  lemma RelocateProgress(fs: Fs, src: string, dst: string, names: seq<string>, fault: Option<nat>)
    requires src in fs && src != dst && Distinct(names)
    requires forall k :: 0 <= k < |names| ==> names[k] in fs[src]
    ensures Relocate(fs, src, dst, names, fault).done == StopAt(fault, FirstIn(names, Contents(fs, dst)))
  {
    var fs1 := EnsureDir(fs, dst);
    MoveEachProgress(fs1[src], fs1[dst], names, 0, fault, FirstIn(names, Contents(fs, dst)));
  }

  /** Relocating into the source directory itself stops at the first file and changes nothing. */
  lemma RelocateIntoItself(fs: Fs, src: string, names: seq<string>, fault: Option<nat>)
    requires src in fs
    ensures Relocate(fs, src, src, names, fault) == Run(fs, 0)
  {
    var d := EnsureDir(fs, src)[src];
    assert d == fs[src];
    assert MoveEach(d, d, names, 0, fault) == Run((d, d), 0);
    assert fs[src := d][src := d] == fs;
  }

  /** Where a loop over `count` files stops when every file is present: at the fault, if it falls inside the loop. */
  function StopAt(fault: Option<nat>, count: nat): (stop: nat)
    ensures stop <= count
    ensures stop < count <==> fault.Some? && fault.value < count
  {
    if fault.Some? && fault.value < count then fault.value else count
  }

  /**
   * Removing distinct names that are all present stops exactly at the injected fault, and
   * completes when there is none.
   */
  lemma {:induction false} RemoveEachProgress(d: Dir, names: seq<string>, i: nat, fault: Option<nat>)
    requires i <= |names| && Distinct(names)
    requires forall k :: i <= k < |names| ==> names[k] in d
    requires fault.Some? ==> i <= fault.value
    ensures RemoveEach(d, names, i, fault).done == StopAt(fault, |names|)
    decreases |names| - i
  {
    if i < |names| && fault != Some(i) {
      RemoveEachProgress(d - {names[i]}, names, i + 1, fault);
    }
  }

  /**
   * Moving distinct names, all present in the source, stops exactly at the injected fault or
   * at `clash`, the first name the destination holds, whichever comes first.
   */
  lemma {:induction false} MoveEachProgress(from: Dir, into: Dir, names: seq<string>, i: nat, fault: Option<nat>, clash: nat)
    requires i <= clash <= |names| && Distinct(names)
    requires forall k :: i <= k < |names| ==> names[k] in from
    requires forall k :: i <= k < clash ==> names[k] !in into
    requires clash < |names| ==> names[clash] in into
    requires fault.Some? ==> i <= fault.value
    ensures MoveEach(from, into, names, i, fault).done == StopAt(fault, clash)
    decreases |names| - i
  {
    if i < clash && fault != Some(i) {
      var n := names[i];
      MoveEachProgress(from - {n}, into[n := from[n]], names, i + 1, fault, clash);
    }
  }
}
