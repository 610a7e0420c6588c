/** Choosing where a map is saved (`doc_save_cb`). A map that already
    has a file keeps it. Otherwise the name is made from the save
    directory and the hex digest of the map's XML: `<dir><hex>.map`, and if
    that file exists, `<dir>Dup1<hex>.map`, `<dir>Dup2<hex>.map`, ... until
    a name is free. The file system is the finite set of existing names;
    the digest is an opaque string. */
module Autosave {

  import opened Wrappers
  import opened Strings

  const MapSuffix: string := ".map"
  const DupPrefix: string := "Dup"

  /** The k-th name tried: the plain name for k = 0, the k-th duplicate
      name after it. */
  function Candidate(dir: string, hex: string, k: nat): string
  {
    if k == 0 then dir + hex + MapSuffix else dir + DupPrefix + NatToString(k) + hex + MapSuffix
  }

  /** Different attempts try different names, so no name is tried twice. */
  lemma CandidateInjective(dir: string, hex: string, a: nat, b: nat)
    requires a != b
    ensures Candidate(dir, hex, a) != Candidate(dir, hex, b)
  {
    var ca, cb := Candidate(dir, hex, a), Candidate(dir, hex, b);
    if a == 0 || b == 0 {
      assert |ca| != |cb|;
    } else {
      NatToStringInjective(a, b);
      assert ca[|dir| + 3..|ca| - |hex| - 4] == NatToString(a);
      assert cb[|dir| + 3..|cb| - |hex| - 4] == NatToString(b);
    }
  }

  /** The names tried before the k-th one: `k` distinct names, none of
      which is tried again later. */
  ghost function TriedBefore(dir: string, hex: string, k: nat): (tried: set<string>)
    ensures |tried| == k
    ensures forall i :: 0 <= i < k ==> Candidate(dir, hex, i) in tried
    ensures forall j: nat :: j >= k ==> Candidate(dir, hex, j) !in tried
  {
    if k == 0 then {}
    else
      var earlier := TriedBefore(dir, hex, k - 1);
      var last := Candidate(dir, hex, k - 1);
      forall j: nat | j >= k
        ensures Candidate(dir, hex, j) != last
      {
        CandidateInjective(dir, hex, j, k - 1);
      }
      earlier + {last}
  }

  /** One more attempt adds one new name to those tried. */
  lemma TriedNext(dir: string, hex: string, k: nat)
    ensures Candidate(dir, hex, k) !in TriedBefore(dir, hex, k)
    ensures TriedBefore(dir, hex, k + 1) == TriedBefore(dir, hex, k) + {Candidate(dir, hex, k)}
  {
  }

  /** The name is the first candidate not in `existing`. */
  ghost predicate FirstFree(dir: string, hex: string, existing: set<string>, name: string) {
    exists k: nat ::
      name == Candidate(dir, hex, k) && name !in existing
      && forall i :: 0 <= i < k ==> Candidate(dir, hex, i) in existing
  }

  /** The search loop: probe candidates in order until one does not
      exist. It stops after at most `|existing|` duplicates. */
  method FreeName(dir: string, hex: string, existing: set<string>) returns (name: string, k: nat)
    ensures name == Candidate(dir, hex, k)
    ensures name !in existing
    ensures forall i :: 0 <= i < k ==> Candidate(dir, hex, i) in existing
    ensures k <= |existing|
  {
    name := dir + hex + MapSuffix;
    var counter := 1;
    ghost var tried: set<string> := {};
    while name in existing
      invariant counter >= 1
      invariant name == Candidate(dir, hex, counter - 1)
      invariant tried == TriedBefore(dir, hex, counter - 1)
      invariant tried <= existing
      decreases existing - tried
    {
      TriedNext(dir, hex, counter - 1);
      tried := tried + {name};
      name := dir + DupPrefix + NatToString(counter) + hex + MapSuffix;
      counter := counter + 1;
    }
    k := counter - 1;
    SubsetCardinality(tried, existing);
  }

  lemma SubsetCardinality(a: set<string>, b: set<string>)
    requires a <= b
    ensures |a| <= |b|
  {
    assert b == a + (b - a);
  }

  /** True if the window already has a file: Python treats `None` and the
      empty string alike as "no file". */
  predicate HasSaveFile(saveFile: Option<string>) {
    saveFile.Some? && saveFile.value != ""
  }

  /** The file `doc_save_cb` writes: the window's file if it has one,
      otherwise the first free candidate name. */
  method ChooseSaveFile(saveFile: Option<string>, dir: string, hex: string, existing: set<string>)
    returns (path: string)
    ensures HasSaveFile(saveFile) ==> path == saveFile.value
    ensures !HasSaveFile(saveFile) ==> path !in existing && FirstFree(dir, hex, existing, path)
  {
    if HasSaveFile(saveFile) {
      path := saveFile.value;
    } else {
      var k;
      path, k := FreeName(dir, hex, existing);
    }
  }

  /** There is only one first free name, so the choice is determined by
      the directory, the digest and the existing files. */
  lemma FirstFreeUnique(dir: string, hex: string, existing: set<string>, a: string, b: string)
    requires FirstFree(dir, hex, existing, a)
    requires FirstFree(dir, hex, existing, b)
    ensures a == b
  {
    var ka: nat :| a == Candidate(dir, hex, ka) && a !in existing
                   && forall i :: 0 <= i < ka ==> Candidate(dir, hex, i) in existing;
    var kb: nat :| b == Candidate(dir, hex, kb) && b !in existing
                   && forall i :: 0 <= i < kb ==> Candidate(dir, hex, i) in existing;
  }
}
