/** A batch run over a directory listing, as both stages perform it: the
    entries are taken in listing order, and an entry for which `writes`
    holds overwrites the file `output(n)` with the document `record(n)`;
    every other entry leaves the directory as it is. The facts proved here
    hold for any choice of the three functions. */
module Listing {

  import opened JsonValues

  function Run(names: seq<string>, writes: string -> bool, output: string -> string, record: string -> Json, dir0: Directory)
    : Directory
    decreases |names|
  {
    if names == [] then dir0
    else
      var dir := Run(names[..|names| - 1], writes, output, record, dir0);
      var last := names[|names| - 1];
      if writes(last) then dir[output(last) := record(last)] else dir
  }

  /** Extending a listing by one entry adds at most that entry's output name. */
  lemma OutputsSnoc(init: seq<string>, last: string, writes: string -> bool, output: string -> string)
    ensures (set n | n in init + [last] && writes(n) :: output(n))
            == (set n | n in init && writes(n) :: output(n)) + if writes(last) then {output(last)} else {}
  {
    var all := set n | n in init + [last] && writes(n) :: output(n);
    var prior := set n | n in init && writes(n) :: output(n);
    var added: set<string> := if writes(last) then {output(last)} else {};
    forall k | k in all ensures k in prior + added {
      var n :| n in init + [last] && writes(n) && output(n) == k;
      if n != last {
        assert n in init;
      }
    }
    forall k | k in prior + added ensures k in all {
      if k in prior {
        var n :| n in init && writes(n) && output(n) == k;
        assert n in init + [last];
      }
    }
  }

  /** The files after a run are the old ones plus the output of every
      writing entry, and nothing else. */
  lemma {:induction false} RunFiles(names: seq<string>, writes: string -> bool, output: string -> string, record: string -> Json, dir0: Directory)
    ensures Run(names, writes, output, record, dir0).Keys == dir0.Keys + set n | n in names && writes(n) :: output(n)
    decreases |names|
  {
    if names != [] {
      var init, last := names[..|names| - 1], names[|names| - 1];
      RunFiles(init, writes, output, record, dir0);
      assert names == init + [last];
      OutputsSnoc(init, last, writes, output);
    }
  }

  /** Running a listing in two parts is running the second part from the
      directory the first part left. */
  lemma {:induction false} RunSplit(first: seq<string>, second: seq<string>, writes: string -> bool, output: string -> string,
                                    record: string -> Json, dir0: Directory)
    ensures Run(first + second, writes, output, record, dir0)
            == Run(second, writes, output, record, Run(first, writes, output, record, dir0))
    decreases |second|
  {
    if second == [] {
      assert first + second == first;
    } else {
      var init := second[..|second| - 1];
      RunSplit(first, init, writes, output, record, dir0);
      assert (first + second)[..|first + second| - 1] == first + init;
    }
  }

  /** An entry that does not write is as if absent from the listing. */
  lemma RunIsolated(before: seq<string>, e: string, after: seq<string>, writes: string -> bool, output: string -> string,
                    record: string -> Json, dir0: Directory)
    requires !writes(e)
    ensures Run(before + [e] + after, writes, output, record, dir0) == Run(before + after, writes, output, record, dir0)
  {
    RunSplit(before + [e], after, writes, output, record, dir0);
    RunSplit(before, after, writes, output, record, dir0);
    assert (before + [e])[..|before|] == before;
  }

  /** A writing entry's file holds its record when no later writing entry
      has the same output name. */
  lemma {:induction false} RunLastWins(names: seq<string>, writes: string -> bool, output: string -> string,
                                       record: string -> Json, dir0: Directory, i: nat)
    requires i < |names| && writes(names[i])
    requires forall j :: i < j < |names| && writes(names[j]) ==> output(names[j]) != output(names[i])
    ensures output(names[i]) in Run(names, writes, output, record, dir0)
    ensures Run(names, writes, output, record, dir0)[output(names[i])] == record(names[i])
    decreases |names|
  {
    if i < |names| - 1 {
      RunLastWins(names[..|names| - 1], writes, output, record, dir0, i);
    }
  }

  /** A file that no writing entry is named after keeps its old content. */
  lemma {:induction false} RunUntouched(names: seq<string>, writes: string -> bool, output: string -> string,
                                        record: string -> Json, dir0: Directory, k: string)
    requires k in dir0
    requires forall j :: 0 <= j < |names| && writes(names[j]) ==> output(names[j]) != k
    ensures k in Run(names, writes, output, record, dir0)
    ensures Run(names, writes, output, record, dir0)[k] == dir0[k]
    decreases |names|
  {
    if names != [] {
      RunUntouched(names[..|names| - 1], writes, output, record, dir0, k);
    }
  }
}
