/** The record store of StudentApp: the linked list of records and the hash
    map from normalised roll to node, with the handlers that read and change
    them. Dialogs, entries and the table are not modelled: a handler takes the
    entry texts as parameters and returns what it would report. Each handler
    is proved to follow its value-level counterpart in module StoreSpec. */
module RecordStore {
  import opened Records
  import opened Text
  import opened LinkedLists
  import opened Quicksort
  import opened RollIndex
  import opened StoreSpec

  class Store {
    const list: LinkedList
    var index: map<string, Node>

    /** The list is well formed and the index is what rebuilding it gives. */
    ghost predicate Valid()
      reads this, list, list.nodes
    {
      list.Valid() && index == IndexFor(list.nodes, Keys(list.students))
    }

    /** The records, in list order. */
    ghost function Contents(): seq<Student>
      reads list
    {
      list.students
    }

    /** What rebuild_hash_map leaves: the keys of the index are exactly the
        normalised rolls of the records, and each maps to a node of the list
        whose record has that key. */
    lemma IndexMatches(k: string)
      requires Valid()
      ensures k in index <==> HasKey(Contents(), k)
      ensures k in index ==> index[k] in list.nodes && RollKey(index[k].student) == k
    {
      var ks := Keys(list.students);
      IndexForHas(list.nodes, ks, k);
      if k in index {
        var p := IndexOver(ks)[k];
        assert index[k] == list.nodes[p] && list.nodes[p].student == list.students[p];
      }
    }

    /** StudentApp's start-up with load_data: the list is rebuilt from what the
        file holds, then the index from the list. */
    constructor (f: Stored)
      ensures Valid() && Contents() == LoadStudents(f)
    {
      list := new LinkedList();
      index := map[];
      new;
      list.RebuildFromList(LoadStudents(f));
      RebuildIndex();
    }

    /** rebuild_hash_map: walks the list from the head and maps each node's
        normalised roll to the node, a later node overwriting an earlier one.
        The map is built in a local and stored at the end, which no reader
        can tell apart from filling the field in place. persist_and_refresh
        and sort_and_refresh both call rebuild_hash_map, so every handler that
        changes the records ends with it. */
    method RebuildIndex()
      requires list.Valid()
      modifies this
      ensures Valid() && list.nodes == old(list.nodes) && list.students == old(list.students)
    {
      ghost var ns, ss := list.nodes, list.students;
      index := BuildIndex();
      assert list.nodes == ns && list.students == ss;
    }

    /** The walk of rebuild_hash_map: from the head, each node is recorded
        under its normalised roll, a later node overwriting an earlier one. */
    method BuildIndex() returns (m: map<string, Node>)
      requires list.Valid()
      ensures m == IndexFor(list.nodes, Keys(list.students))
    {
      ghost var ns := list.nodes;
      ghost var ks := Keys(list.students);
      m := map[];
      var cur := list.head;
      ghost var k := 0;
      while cur != null
        invariant 0 <= k <= |ns|
        invariant cur == if k < |ns| then ns[k] else null
        invariant m == IndexFor(ns[..k], ks[..k])
        decreases |ns| - k
      {
        var key := NormalizeRoll(cur.student.roll);
        assert key == ks[k];
        IndexForStep(ns, ks, k);
        m := m[key := cur];
        cur := cur.next;
        k := k + 1;
      }
      assert ns[..k] == ns && ks[..k] == ks;
    }

    /** hash_map[key] = node: one entry written, the list untouched. */
    method Put(key: string, node: Node)
      modifies this
      ensures index == old(index)[key := node]
      ensures list.nodes == old(list.nodes) && list.students == old(list.students)
      ensures old(list.Valid()) ==> list.Valid()
    {
      index := index[key := node];
    }

    /** hash_map.pop(key, None): the entry of key, if any, is dropped, the
        list untouched. */
    method Pop(key: string)
      modifies this
      ensures index == old(index) - {key}
      ensures list.nodes == old(list.nodes) && list.students == old(list.students)
      ensures old(list.Valid()) ==> list.Valid()
    {
      index := index - {key};
    }

    /** add_student: the hash_map entry it writes for the new node is what
        the rebuild in persist_and_refresh gives. */
    method Add(rollRaw: string, nameRaw: string, gpa: GpaField) returns (r: Result<Student, StoreError>)
      requires Valid()
      modifies this, list, list.nodes
      ensures Valid()
      ensures r == AddStep(old(Contents()), rollRaw, nameRaw, gpa).result
      ensures Contents() == AddStep(old(Contents()), rollRaw, nameRaw, gpa).after
      ensures r.Failure? ==> list.nodes == old(list.nodes) && index == old(index)
      ensures r.Success? ==>
        && |list.nodes| == |old(list.nodes)| + 1
        && list.nodes[..|old(list.nodes)|] == old(list.nodes)
        && fresh(list.nodes[|old(list.nodes)|])
        && index == old(index)[r.value.roll := list.nodes[|old(list.nodes)|]]
    {
      ghost var ns, ss := list.nodes, list.students;
      ghost var ks := Keys(ss);
      AddStepCases(ss, rollRaw, nameRaw, gpa);
      var v := ValidateInputs(rollRaw, nameRaw, gpa, true);
      if v.Failure? {
        return v;
      }
      var s := v.value;
      ValidatedIsKeyed(rollRaw, nameRaw, gpa, true);
      IndexForHas(ns, ks, s.roll);
      if s.roll in index {
        return Failure(DuplicateRoll(s.roll));
      }
      var node := list.Append(s);
      assert list.nodes == ns + [node] && list.students == ss + [s];
      Put(s.roll, node);
      ghost var added := index;
      KeysSnoc(ss, s);
      IndexForSnoc(ns, ks, node, s.roll);
      PrefixOfSnoc(ns, node);
      RebuildIndex();
      assert list.nodes == ns + [node];
      assert list.students == ss + [s];
      assert Keys(list.students) == ks + [s.roll];
      assert index == IndexFor(ns + [node], ks + [s.roll]);
      r := Success(s);
    }

    /** update_student: the record of the node indexed under the original roll
        takes the new values in place. With unique rolls, the pop and insert it
        does on hash_map are what the rebuild gives. */
    method Update(original: Option<string>, rollRaw: string, nameRaw: string, gpa: GpaField) returns (r: Result<Student, StoreError>)
      requires Valid()
      modifies this, list, list.nodes
      ensures Valid() && list.nodes == old(list.nodes)
      ensures r == UpdateStep(old(Contents()), original, rollRaw, nameRaw, gpa).result
      ensures Contents() == UpdateStep(old(Contents()), original, rollRaw, nameRaw, gpa).after
      ensures r.Failure? ==> index == old(index)
      ensures r.Success? && UniqueRolls(old(Contents())) ==>
        var key := NormalizeRoll(original.value);
        key in old(index) && index == (old(index) - {key})[r.value.roll := old(index)[key]]
    {
      ghost var ns, ss := list.nodes, list.students;
      ghost var ks := Keys(ss);
      UpdateStepCases(ss, original, rollRaw, nameRaw, gpa);
      if original.None? {
        return Failure(NoSelection);
      }
      var origKey := NormalizeRoll(original.value);
      var v := ValidateInputs(rollRaw, nameRaw, gpa, true);
      if v.Failure? {
        return v;
      }
      var s := v.value;
      IndexForHas(ns, ks, s.roll);
      IndexOverAt(ks, s.roll);
      if s.roll != origKey && s.roll in index {
        return Failure(DuplicateRoll(s.roll));
      }
      IndexForHas(ns, ks, origKey);
      IndexOverAt(ks, origKey);
      if origKey !in index {
        return Failure(NotFound(origKey));
      }
      var node := index[origKey];
      ghost var p := IndexOver(ks)[origKey];
      ValidatedIsKeyed(rollRaw, nameRaw, gpa, true);
      Rekey(node, p, s, origKey);
      r := Success(s);
    }

    /** The in-place part of update_student: the p-th node takes record s,
        and the hash_map entry of the original key moves to the new roll. */
    method Rekey(node: Node, ghost p: nat, s: Student, origKey: string)
      requires Valid() && p < |list.nodes| && node == list.nodes[p]
      modifies this, list, list.nodes
      ensures Valid() && list.nodes == old(list.nodes)
      ensures Contents() == old(Contents())[p := s]
      ensures
        && UniqueRolls(old(Contents())) && Keys(old(Contents()))[p] == origKey && RollKey(s) == s.roll
        && (s.roll == origKey || !HasKey(old(Contents()), s.roll))
        ==> index == (old(index) - {origKey})[s.roll := node]
    {
      ghost var ns, ss := list.nodes, Contents();
      ghost var ks := Keys(ss);
      list.SetStudent(node, p, s);
      assert list.nodes == ns && list.students == ss[p := s];
      if s.roll != origKey {
        Pop(origKey);
        Put(s.roll, node);
      }
      RebuildIndex();
      assert list.nodes == ns && list.students == ss[p := s];
      if UniqueRolls(ss) && ks[p] == origKey && RollKey(s) == s.roll && (s.roll == origKey || !HasKey(ss, s.roll)) {
        IndexAfterRekey(ns, ss, p, s);
      }
    }

    /** delete_student: a blank roll, a key the index lacks and a cancelled
        confirmation each change nothing; otherwise the indexed record is
        removed and the key reported. With unique rolls, popping the key from
        hash_map is what the rebuild gives. */
    method Delete(rollRaw: string, confirmed: bool) returns (r: Result<string, StoreError>)
      requires Valid()
      modifies this, list, list.nodes
      ensures Valid()
      ensures r == DeleteStep(old(Contents()), rollRaw, confirmed).result
      ensures Contents() == DeleteStep(old(Contents()), rollRaw, confirmed).after
      ensures r.Failure? ==> list.nodes == old(list.nodes) && index == old(index)
      ensures r.Success? && UniqueRolls(old(Contents())) ==> index == old(index) - {NormalizeRoll(rollRaw)}
    {
      var stripped := Strip(rollRaw);
      if stripped == [] {
        return Failure(MissingRoll);
      }
      var key := NormalizeRoll(stripped);
      NormalizeStripped(rollRaw);
      ghost var ns, ss := list.nodes, list.students;
      ghost var ks := Keys(ss);
      IndexForHas(ns, ks, key);
      IndexOverAt(ks, key);
      if key !in index {
        return Failure(NotFound(key));
      }
      if !confirmed {
        return Failure(Cancelled);
      }
      ghost var i := IndexOver(ks)[key];
      assert DeleteStep(ss, rollRaw, confirmed) == DeleteAt(ss, i);
      Take(key, i);
      r := Success(key);
    }

    /** The confirmed part of delete_student: the record indexed under key,
        the i-th, is read and removed from the list through its exact roll, and
        the key popped from hash_map; persist_and_refresh then rebuilds the
        index. remove_by_roll always finds the record, so the "internal error"
        branch cannot be taken. */
    method Take(key: string, ghost i: nat)
      requires Valid() && i < |list.nodes| && key in index && index[key] == list.nodes[i]
      modifies this, list, list.nodes
      ensures Valid()
      ensures Contents() == DeleteAt(old(Contents()), i).after
      ensures UniqueRolls(old(Contents())) ==> index == old(index) - {Keys(old(Contents()))[i]}
    {
      ghost var ns, ss := list.nodes, list.students;
      assert index == IndexFor(ns, Keys(ss));
      var target := index[key].student;
      assert target == ss[i];
      ghost var step := DeleteAt(ss, i);
      var removed := Unindex(target.roll, key, i);
      assert list.students == step.after;
      if UniqueRolls(ss) {
        IndexAfterRemove(ns, ss, i, list.nodes, list.students);
      }
      if removed {
        RebuildIndex();
      } else {
        assert false;
      }
    }

    /** The removal part of delete_student: remove_by_roll with the exact roll
        of the i-th record, the one indexed under key, then the pop of key
        from hash_map. The record is always found. */
    method Unindex(roll: string, key: string, ghost i: nat) returns (removed: bool)
      requires list.Valid() && i < |list.students| && list.students[i].roll == roll
      modifies this, list, list.nodes
      ensures removed && list.Valid()
      ensures var p := FirstRoll(old(list.students), roll);
        && p <= i
        && list.nodes == old(list.nodes)[..p] + old(list.nodes)[p + 1..]
        && list.students == old(list.students)[..p] + old(list.students)[p + 1..]
      ensures index == old(index) - {key}
    {
      ghost var ns, ss := list.nodes, list.students;
      ghost var p := FirstRoll(ss, roll);
      assert p <= i && ss[i].roll == roll;
      removed := list.RemoveByRoll(roll);
      assert removed;
      assert list.nodes == ns[..p] + ns[p + 1..] && list.students == ss[..p] + ss[p + 1..];
      Pop(key);
      assert list.nodes == ns[..p] + ns[p + 1..] && list.students == ss[..p] + ss[p + 1..];
    }

    /** search_student's lookup: the record the index holds under the
        normalised roll, which is the last record with that key. */
    method Search(rollRaw: string) returns (r: Result<Student, StoreError>)
      requires Valid()
      ensures r.Success? <==> Strip(rollRaw) != [] && HasKey(Contents(), NormalizeRoll(rollRaw))
      ensures Strip(rollRaw) == [] ==> r == Failure(MissingRoll)
      ensures Strip(rollRaw) != [] && !HasKey(Contents(), NormalizeRoll(rollRaw)) ==>
        r == Failure(NotFound(NormalizeRoll(rollRaw)))
      ensures r.Success? ==> exists i :: IndexedAt(Contents(), NormalizeRoll(rollRaw), r.value, i)
    {
      var stripped := Strip(rollRaw);
      if stripped == [] {
        return Failure(MissingRoll);
      }
      var key := NormalizeRoll(stripped);
      NormalizeStripped(rollRaw);
      ghost var ks := Keys(list.students);
      IndexForHas(list.nodes, ks, key);
      IndexOverAt(ks, key);
      if key !in index {
        return Failure(NotFound(key));
      }
      var node := index[key];
      ghost var i := IndexOver(ks)[key];
      assert IndexedAt(list.students, key, node.student, i);
      return Success(node.student);
    }

    /** sort_and_refresh: the records are sorted by the chosen key with
        quicksort_students, reversed for GPA so the highest comes first, and
        the list and the index are rebuilt in that order. */
    method Sort(keyName: string)
      requires Valid()
      modifies this, list
      ensures Valid()
      ensures multiset(Contents()) == multiset(old(Contents()))
      ensures keyName != "gpa" ==> Sorted(Contents(), KeyFor(keyName))
      ensures keyName == "gpa" ==> GpaDescending(Contents())
      ensures UniqueRolls(old(Contents())) ==> UniqueRolls(Contents())
      ensures (keyName != "name" && keyName != "gpa" && UniqueRolls(old(Contents()))
               && Sorted(old(Contents()), KeyFor(keyName))) ==> Contents() == old(Contents())
    {
      var students := list.ToList();
      var a := new Student[|students|](i requires 0 <= i < |students| => students[i]);
      assert a[..] == students;
      QuicksortStudents(a, KeyFor(keyName));
      var sorted := a[..];
      if keyName == "gpa" {
        ReversedDescending(sorted);
        ReversedMultiset(sorted);
        sorted := Reversed(sorted);
      }
      list.RebuildFromList(sorted);
      RebuildIndex();
      if UniqueRolls(students) {
        PermutationKeepsUnique(students, sorted);
        if keyName != "name" && keyName != "gpa" && Sorted(students, KeyFor(keyName)) {
          RollSortDetermined(students, sorted, keyName);
        }
      }
    }
  }
}
