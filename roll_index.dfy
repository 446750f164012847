/** The roll index of StudentApp (hash_map) on values: the key of a record is
    its normalised roll, and rebuild_hash_map writes the key of every node in
    list order, so a later node overwrites an earlier one with the same key.
    The lemmas say how the index changes when a record is appended, rekeyed
    or removed. */
module RollIndex {
  import opened Records
  import opened Text

  /** The index key of a record: its normalised roll. */
  function RollKey(s: Student): string {
    NormalizeRoll(s.roll)
  }

  /** The index keys of the records, in list order. */
  function Keys(ss: seq<Student>): (ks: seq<string>)
    ensures |ks| == |ss| && forall i {:trigger ks[i]} :: 0 <= i < |ss| ==> ks[i] == RollKey(ss[i])
  {
    seq(|ss|, i requires 0 <= i < |ss| => RollKey(ss[i]))
  }

  /** Some record has key k. */
  ghost predicate HasKey(ss: seq<Student>, k: string) {
    k in Keys(ss)
  }

  /** No two keys alike. */
  ghost predicate Distinct(ks: seq<string>) {
    forall p, q :: 0 <= p < q < |ks| ==> ks[p] != ks[q]
  }

  /** No two records share a normalised roll. */
  ghost predicate UniqueRolls(ss: seq<Student>) {
    Distinct(Keys(ss))
  }

  /** No key after position p equals k. */
  ghost predicate LastAt(ks: seq<string>, k: string, p: int) {
    forall q :: p < q < |ks| && 0 <= q ==> ks[q] != k
  }

  lemma KeysSnoc(ss: seq<Student>, s: Student)
    ensures Keys(ss + [s]) == Keys(ss) + [RollKey(s)]
  {
    assert forall i :: 0 <= i < |ss| ==> (ss + [s])[i] == ss[i];
  }

  lemma KeysUpdate(ss: seq<Student>, p: int, s: Student)
    requires 0 <= p < |ss|
    ensures Keys(ss[p := s]) == Keys(ss)[p := RollKey(s)]
  {
  }

  lemma KeysRemove(ss: seq<Student>, p: int)
    requires 0 <= p < |ss|
    ensures Keys(ss[..p] + ss[p + 1..]) == Keys(ss)[..p] + Keys(ss)[p + 1..]
  {
    var t := ss[..p] + ss[p + 1..];
    assert forall i :: 0 <= i < |t| ==> t[i] == ss[if i < p then i else i + 1];
  }

  /** The index that rebuild_hash_map builds over nodes ns with keys ks:
      each key written in turn from the head, a later node overwriting an
      earlier one. */
  function IndexFor<N>(ns: seq<N>, ks: seq<string>): (m: map<string, N>)
    requires |ns| == |ks|
    ensures forall k :: k in m <==> k in ks
  {
    if ns == [] then map[]
    else
      var n := |ns| - 1;
      assert ks == ks[..n] + [ks[n]];
      IndexFor(ns[..n], ks[..n])[ks[n] := ns[n]]
  }

  /** The position each key is indexed at: IndexFor over the positions. */
  function IndexOver(ks: seq<string>): map<string, nat> {
    if ks == [] then map[]
    else IndexOver(ks[..|ks| - 1])[ks[|ks| - 1] := |ks| - 1]
  }

  /** A key is indexed exactly when some record has it, at the position of
      the last record that has it. */
  lemma {:induction false} IndexOverAt(ks: seq<string>, k: string)
    ensures k in IndexOver(ks) <==> k in ks
    ensures k in IndexOver(ks) ==>
      IndexOver(ks)[k] < |ks| && ks[IndexOver(ks)[k]] == k && LastAt(ks, k, IndexOver(ks)[k])
  {
    if ks != [] {
      var init := ks[..|ks| - 1];
      IndexOverAt(init, k);
      assert ks == init + [ks[|ks| - 1]];
    }
  }

  /** The position of key k, known to be indexed. */
  function IndexAt(ks: seq<string>, pos: map<string, nat>, k: string): (i: nat)
    requires pos == IndexOver(ks) && k in pos
    ensures i < |ks| && i == pos[k] && ks[i] == k && LastAt(ks, k, i)
  {
    IndexOverAt(ks, k);
    pos[k]
  }

  /** The index holds a key exactly when some record has it, and then the
      node of the last record that has it. */
  lemma {:induction false} IndexForHas<N>(ns: seq<N>, ks: seq<string>, k: string)
    requires |ns| == |ks|
    ensures k in IndexFor(ns, ks) <==> k in ks
    ensures k in IndexFor(ns, ks) ==>
      && k in IndexOver(ks) && IndexOver(ks)[k] < |ks| && ks[IndexOver(ks)[k]] == k && LastAt(ks, k, IndexOver(ks)[k])
      && IndexFor(ns, ks)[k] == ns[IndexOver(ks)[k]]
  {
    IndexOverAt(ks, k);
    if ns != [] {
      var n := |ns| - 1;
      IndexForHas(ns[..n], ks[..n], k);
      IndexOverAt(ks[..n], k);
      assert ks == ks[..n] + [ks[n]];
    }
  }

  /** With distinct keys, the p-th key is indexed at the p-th node. */
  lemma IndexForAt<N>(ns: seq<N>, ks: seq<string>, p: int)
    requires |ns| == |ks| && Distinct(ks) && 0 <= p < |ks|
    ensures ks[p] in IndexFor(ns, ks) && IndexFor(ns, ks)[ks[p]] == ns[p]
  {
    IndexForHas(ns, ks, ks[p]);
  }

  /** Appending a node writes its key last. */
  lemma IndexForSnoc<N>(ns: seq<N>, ks: seq<string>, n: N, k: string)
    requires |ns| == |ks|
    ensures IndexFor(ns + [n], ks + [k]) == IndexFor(ns, ks)[k := n]
  {
    assert (ns + [n])[..|ns|] == ns && (ks + [k])[..|ks|] == ks;
  }

  /** One step of rebuild_hash_map's walk: the index of the first k + 1
      nodes is the index of the first k with the k-th key written. */
  lemma IndexForStep<N>(ns: seq<N>, ks: seq<string>, k: nat)
    requires |ns| == |ks| && k < |ns|
    ensures IndexFor(ns[..k + 1], ks[..k + 1]) == IndexFor(ns[..k], ks[..k])[ks[k] := ns[k]]
  {
    assert ns[..k + 1][..k] == ns[..k] && ks[..k + 1][..k] == ks[..k];
  }

  /** The keys after replacing position p by k, with distinct keys. */
  lemma UpdateMembers(ks: seq<string>, p: int, k: string, j: string)
    requires Distinct(ks) && 0 <= p < |ks|
    ensures j in ks[p := k] <==> j == k || (j in ks && j != ks[p])
  {
    var t := ks[p := k];
    assert t[p] == k;
    if j in t && j != k {
      var q :| 0 <= q < |t| && t[q] == j;
      assert ks[q] == j;
    }
    if j in ks && j != ks[p] {
      var q :| 0 <= q < |ks| && ks[q] == j;
      assert t[q] == j;
    }
  }

  /** Rekeying the p-th node, as update_student does: with distinct keys
      before and after, the old key goes and the new one maps to the node. */
  lemma IndexForUpdate<N>(ns: seq<N>, ks: seq<string>, p: int, k: string)
    requires |ns| == |ks| && 0 <= p < |ks|
    requires Distinct(ks) && Distinct(ks[p := k])
    ensures IndexFor(ns, ks[p := k]) == (IndexFor(ns, ks) - {ks[p]})[k := ns[p]]
  {
    var t := ks[p := k];
    var L := IndexFor(ns, t);
    var R := (IndexFor(ns, ks) - {ks[p]})[k := ns[p]];
    forall j
      ensures j in L <==> j in R
    {
      UpdateMembers(ks, p, k, j);
      IndexForHas(ns, ks, j);
      IndexForHas(ns, t, j);
    }
    forall j | j in L
      ensures L[j] == R[j]
    {
      IndexForHas(ns, t, j);
      var q := IndexOver(t)[j];
      IndexForAt(ns, t, q);
      if q != p {
        assert t[p] == k && ks[q] == j;
        IndexForAt(ns, ks, q);
      }
    }
  }

  /** The keys after dropping position p, with distinct keys. */
  lemma RemoveMembers(ks: seq<string>, p: int)
    requires Distinct(ks) && 0 <= p < |ks|
    ensures Distinct(ks[..p] + ks[p + 1..])
    ensures forall j :: j in ks[..p] + ks[p + 1..] <==> j in ks && j != ks[p]
  {
    var t := ks[..p] + ks[p + 1..];
    assert forall i :: 0 <= i < |t| ==> t[i] == ks[if i < p then i else i + 1];
    forall j | j in ks && j != ks[p]
      ensures j in t
    {
      var q :| 0 <= q < |ks| && ks[q] == j;
      assert t[if q < p then q else q - 1] == j;
    }
  }

  /** A key no one has keeps the keys distinct when appended. */
  lemma AddKeepsDistinct(ks: seq<string>, k: string)
    requires Distinct(ks) && k !in ks
    ensures Distinct(ks + [k])
  {
    var t := ks + [k];
    assert forall i :: 0 <= i < |ks| ==> t[i] == ks[i];
  }

  /** Replacing key p by itself or by a key no one has keeps them distinct. */
  lemma UpdateKeepsDistinct(ks: seq<string>, p: int, k: string)
    requires Distinct(ks) && 0 <= p < |ks|
    requires k == ks[p] || k !in ks
    ensures Distinct(ks[p := k])
  {
  }

  /** Removing the p-th node, with distinct keys: its key goes and nothing
      else changes. */
  lemma IndexForRemove<N>(ns: seq<N>, ks: seq<string>, p: int)
    requires |ns| == |ks| && 0 <= p < |ks| && Distinct(ks)
    ensures IndexFor(ns[..p] + ns[p + 1..], ks[..p] + ks[p + 1..]) == IndexFor(ns, ks) - {ks[p]}
  {
    var t := ks[..p] + ks[p + 1..];
    var mt := ns[..p] + ns[p + 1..];
    RemoveMembers(ks, p);
    var L := IndexFor(mt, t);
    var R := IndexFor(ns, ks) - {ks[p]};
    forall j
      ensures j in L <==> j in R
    {
      IndexForHas(ns, ks, j);
      IndexForHas(mt, t, j);
    }
    forall j | j in L
      ensures L[j] == R[j]
    {
      IndexForHas(mt, t, j);
      var i := IndexOver(t)[j];
      IndexForAt(mt, t, i);
      var o := if i < p then i else i + 1;
      assert t[i] == ks[o] && mt[i] == ns[o];
      IndexForAt(ns, ks, o);
    }
  }
}
