/** What the StudentApp handlers do to the list of records, stated on values:
    the input checks of validate_inputs and the outcome of add, update,
    delete and sort. The Store class in module RecordStore is proved to
    follow these. */
module StoreSpec {
  import opened Records
  import opened Text
  import opened LinkedLists
  import opened Quicksort
  import opened RollIndex

  datatype Option<T> = None | Some(value: T)

  /** The GPA entry after strip(): empty, not a number for float(), or a number. */
  datatype GpaField = Blank | Unparsable | Parsed(value: real)

  /** The warnings and errors the handlers show in a message box. */
  datatype StoreError =
    | MissingRoll
    | MissingName
    | MissingGpa
    | GpaNotNumber
    | GpaOutOfRange
    | DuplicateRoll(roll: string)
    | NoSelection
    | NotFound(roll: string)
    | Cancelled

  /** What a handler reports (the record added or updated, the key deleted),
      and the records afterwards. */
  datatype Step<T> = Step(result: Result<T, StoreError>, after: seq<Student>)

  /** validate_inputs: the roll is normalised and the name stripped; the first
      failing check is reported: roll (when required), name, blank GPA, GPA
      that float() rejects, GPA outside [0, 4.0]. */
  function ValidateInputs(rollRaw: string, nameRaw: string, gpa: GpaField, requireRoll: bool): (r: Result<Student, StoreError>)
    ensures r.Success? <==>
      && (requireRoll ==> NormalizeRoll(rollRaw) != [])
      && Strip(nameRaw) != []
      && gpa.Parsed? && 0.0 <= gpa.value <= 4.0
    ensures r.Success? ==> r.value == Student(NormalizeRoll(rollRaw), Strip(nameRaw), gpa.value)
    ensures requireRoll && NormalizeRoll(rollRaw) == [] ==> r == Failure(MissingRoll)
    ensures !(requireRoll && NormalizeRoll(rollRaw) == []) ==>
      if Strip(nameRaw) == [] then r == Failure(MissingName)
      else match gpa
        case Blank => r == Failure(MissingGpa)
        case Unparsable => r == Failure(GpaNotNumber)
        case Parsed(g) => !(0.0 <= g <= 4.0) ==> r == Failure(GpaOutOfRange)
  {
    var roll := NormalizeRoll(rollRaw);
    var name := Strip(nameRaw);
    if requireRoll && roll == [] then Failure(MissingRoll)
    else if name == [] then Failure(MissingName)
    else match gpa
      case Blank => Failure(MissingGpa)
      case Unparsable => Failure(GpaNotNumber)
      case Parsed(g) => if g < 0.0 || g > 4.0 then Failure(GpaOutOfRange) else Success(Student(roll, name, g))
  }

  /** A validated record is stored under a roll that is its own index key,
      with a GPA in [0, 4.0]. */
  lemma ValidatedIsKeyed(rollRaw: string, nameRaw: string, gpa: GpaField, requireRoll: bool)
    requires ValidateInputs(rollRaw, nameRaw, gpa, requireRoll).Success?
    ensures var s := ValidateInputs(rollRaw, nameRaw, gpa, requireRoll).value;
      RollKey(s) == s.roll == NormalizeRoll(rollRaw) && 0.0 <= s.gpa <= 4.0
  {
    var s := ValidateInputs(rollRaw, nameRaw, gpa, requireRoll).value;
    assert s == Student(NormalizeRoll(rollRaw), Strip(nameRaw), gpa.value);
    NormalizeIdempotent(rollRaw);
  }

  /** add_student: validation, then a duplicate check against the index, then
      one record appended. A failure leaves the records as they were. */
  function AddStep(ss: seq<Student>, rollRaw: string, nameRaw: string, gpa: GpaField): (o: Step<Student>)
    ensures var v := ValidateInputs(rollRaw, nameRaw, gpa, true);
      && (o.result.Success? <==> v.Success? && !HasKey(ss, NormalizeRoll(rollRaw)))
      && (o.result.Success? ==> o.result == v && o.after == ss + [v.value])
      && (v.Success? && HasKey(ss, NormalizeRoll(rollRaw)) ==> o.result == Failure(DuplicateRoll(NormalizeRoll(rollRaw))))
      && (v.Failure? ==> o.result == v)
      && (o.result.Failure? ==> o.after == ss)
  {
    match ValidateInputs(rollRaw, nameRaw, gpa, true)
    case Failure(e) => Step(Failure(e), ss)
    case Success(s) =>
      IndexOverAt(Keys(ss), s.roll);
      if s.roll in IndexOver(Keys(ss)) then Step(Failure(DuplicateRoll(s.roll)), ss)
      else Step(Success(s), ss + [s])
  }

  /** The outcomes of add_student, case by case. */
  lemma AddStepCases(ss: seq<Student>, rollRaw: string, nameRaw: string, gpa: GpaField)
    ensures var v := ValidateInputs(rollRaw, nameRaw, gpa, true);
      AddStep(ss, rollRaw, nameRaw, gpa) ==
        if v.Failure? then Step(v, ss)
        else if v.value.roll in Keys(ss) then Step(Failure(DuplicateRoll(v.value.roll)), ss)
        else Step(v, ss + [v.value])
  {
    var v := ValidateInputs(rollRaw, nameRaw, gpa, true);
    if v.Success? {
      IndexOverAt(Keys(ss), v.value.roll);
    }
  }

  /** update_student: with a selected row whose roll is `original`, the new
      values are validated; a new roll that another record has is refused
      before the lookup of the original; then the last record with the
      original key takes the new roll, name and GPA in place. */
  function UpdateStep(ss: seq<Student>, original: Option<string>, rollRaw: string, nameRaw: string, gpa: GpaField): (o: Step<Student>)
    ensures var v := ValidateInputs(rollRaw, nameRaw, gpa, true);
      && (o.result.Success? <==>
            && original.Some? && v.Success?
            && (NormalizeRoll(rollRaw) == NormalizeRoll(original.value) || !HasKey(ss, NormalizeRoll(rollRaw)))
            && HasKey(ss, NormalizeRoll(original.value)))
      && (original.None? ==> o.result == Failure(NoSelection))
    ensures var v := ValidateInputs(rollRaw, nameRaw, gpa, true);
      && (o.result.Success? ==> o.result == v && exists p ::
            && 0 <= p < |ss| && Keys(ss)[p] == NormalizeRoll(original.value)
            && LastAt(Keys(ss), NormalizeRoll(original.value), p)
            && o.after == ss[p := v.value])
      && (o.result.Failure? ==> o.after == ss)
  {
    match original
    case None => Step(Failure(NoSelection), ss)
    case Some(orig) =>
      var origKey := NormalizeRoll(orig);
      match ValidateInputs(rollRaw, nameRaw, gpa, true)
      case Failure(e) => Step(Failure(e), ss)
      case Success(s) =>
        var ks := Keys(ss);
        var pos := IndexOver(ks);
        IndexOverAt(ks, s.roll);
        IndexOverAt(ks, origKey);
        if s.roll != origKey && s.roll in pos then Step(Failure(DuplicateRoll(s.roll)), ss)
        else if origKey !in pos then Step(Failure(NotFound(origKey)), ss)
        else Step(Success(s), ss[pos[origKey] := s])
  }

  /** Which error each failed update_student reports, in the handler's
      order of checks: no selection, then the validation error, then a new
      key that another record has, then an original key that no record has. */
  lemma UpdateStepFailures(ss: seq<Student>, original: Option<string>, rollRaw: string, nameRaw: string, gpa: GpaField)
    ensures var o, v := UpdateStep(ss, original, rollRaw, nameRaw, gpa), ValidateInputs(rollRaw, nameRaw, gpa, true);
      && (original.Some? && v.Failure? ==> o.result == v)
      && (original.Some? && v.Success? ==>
            var key, origKey := NormalizeRoll(rollRaw), NormalizeRoll(original.value);
            && (key != origKey && HasKey(ss, key) ==> o.result == Failure(DuplicateRoll(key)))
            && ((key == origKey || !HasKey(ss, key)) && !HasKey(ss, origKey) ==> o.result == Failure(NotFound(origKey))))
  {
    UpdateStepCases(ss, original, rollRaw, nameRaw, gpa);
    var v := ValidateInputs(rollRaw, nameRaw, gpa, true);
    if original.Some? && v.Success? {
      IndexOverAt(Keys(ss), v.value.roll);
      IndexOverAt(Keys(ss), NormalizeRoll(original.value));
    }
  }

  /** The outcomes of update_student, case by case. */
  lemma UpdateStepCases(ss: seq<Student>, original: Option<string>, rollRaw: string, nameRaw: string, gpa: GpaField)
    ensures var v := ValidateInputs(rollRaw, nameRaw, gpa, true);
      var pos := IndexOver(Keys(ss));
      UpdateStep(ss, original, rollRaw, nameRaw, gpa) ==
        if original.None? then Step(Failure(NoSelection), ss)
        else if v.Failure? then Step(v, ss)
        else if v.value.roll != NormalizeRoll(original.value) && v.value.roll in pos then
          Step(Failure(DuplicateRoll(v.value.roll)), ss)
        else if NormalizeRoll(original.value) !in pos then
          Step(Failure(NotFound(NormalizeRoll(original.value))), ss)
        else Step(v, ss[IndexAt(Keys(ss), pos, NormalizeRoll(original.value)) := v.value])
  {
  }

  /** delete_student: the stripped roll must be non-empty and indexed and the
      deletion confirmed, and then the normalised key is reported as deleted.
      remove_by_roll is given the exact roll of the indexed record (the last
      one with the key), so the first record with exactly that roll goes,
      which has the same key. */
  function DeleteStep(ss: seq<Student>, rollRaw: string, confirmed: bool): (o: Step<string>)
    ensures var key := NormalizeRoll(rollRaw);
      && (o.result.Success? <==> Strip(rollRaw) != [] && HasKey(ss, key) && confirmed)
      && (o.result.Success? ==> o.result.value == key)
      && (Strip(rollRaw) == [] ==> o.result == Failure(MissingRoll))
      && (Strip(rollRaw) != [] && !HasKey(ss, key) ==> o.result == Failure(NotFound(key)))
      && (Strip(rollRaw) != [] && HasKey(ss, key) && !confirmed ==> o.result == Failure(Cancelled))
      && (o.result.Failure? ==> o.after == ss)
  {
    var key := NormalizeRoll(rollRaw);
    var pos := IndexOver(Keys(ss));
    IndexOverAt(Keys(ss), key);
    if Strip(rollRaw) == [] then Step(Failure(MissingRoll), ss)
    else if key !in pos then Step(Failure(NotFound(key)), ss)
    else if !confirmed then Step(Failure(Cancelled), ss)
    else DeleteAt(ss, IndexAt(Keys(ss), pos, key))
  }

  /** A confirmed deletion through the index entry at i: the key of the
      record there is reported, and the first record with exactly its roll is
      removed, one record at or before i. */
  function DeleteAt(ss: seq<Student>, i: nat): (o: Step<string>)
    requires i < |ss|
    ensures o.result == Success(RollKey(ss[i])) && |o.after| == |ss| - 1
    ensures exists p ::
      && 0 <= p <= i && ss[p].roll == ss[i].roll && o.after == ss[..p] + ss[p + 1..]
      && forall q :: 0 <= q < p ==> ss[q].roll != ss[i].roll
  {
    var p := FirstRoll(ss, ss[i].roll);
    Step(Success(Keys(ss)[i]), ss[..p] + ss[p + 1..])
  }

  /** A successful deletion removes the first record with the exact roll of
      the indexed record, as DeletedAt states. */
  lemma DeleteStepOutcome(ss: seq<Student>, rollRaw: string, confirmed: bool)
    ensures var o := DeleteStep(ss, rollRaw, confirmed);
      o.result.Success? ==> Deleted(ss, NormalizeRoll(rollRaw), o.after)
  {
    var o := DeleteStep(ss, rollRaw, confirmed);
    if o.result.Success? {
      var i := DeletePosition(ss, rollRaw, confirmed);
      DeleteOutcome(ss, i);
    }
  }

  /** The position of the record a successful deletion goes through: the
      index entry of the key, the last record that has it. */
  lemma DeletePosition(ss: seq<Student>, rollRaw: string, confirmed: bool) returns (i: int)
    requires DeleteStep(ss, rollRaw, confirmed).result.Success?
    ensures 0 <= i < |ss| && Keys(ss)[i] == NormalizeRoll(rollRaw) && LastAt(Keys(ss), Keys(ss)[i], i)
    ensures DeleteStep(ss, rollRaw, confirmed) == DeleteAt(ss, i)
  {
    var key := NormalizeRoll(rollRaw);
    var ks := Keys(ss);
    IndexOverAt(ks, key);
    i := IndexOver(ks)[key];
  }

  /** Deleting through the index entry at i has the outcome DeletedAt states. */
  lemma DeleteOutcome(ss: seq<Student>, i: int)
    requires 0 <= i < |ss| && LastAt(Keys(ss), Keys(ss)[i], i)
    ensures Deleted(ss, Keys(ss)[i], DeleteAt(ss, i).after)
  {
    FirstRollKey(ss, i);
    var p := FirstRoll(ss, ss[i].roll);
    assert DeletedAt(ss, Keys(ss)[i], ss[..p] + ss[p + 1..], i);
  }

  /** The outcome of a deletion for some position i of the records. */
  ghost predicate Deleted(ss: seq<Student>, key: string, after: seq<Student>) {
    exists i :: DeletedAt(ss, key, after, i)
  }

  /** r is the record at i, the last one whose key is `key`: the one the
      index holds under that key. */
  ghost predicate IndexedAt(ss: seq<Student>, key: string, r: Student, i: int) {
    0 <= i < |ss| && Keys(ss)[i] == key && LastAt(Keys(ss), key, i) && r == ss[i]
  }

  /** The outcome of a deletion: record i is the last one with the key, and
      `after` lacks the first record with its exact roll, which comes no later
      and has the same key. */
  ghost predicate DeletedAt(ss: seq<Student>, key: string, after: seq<Student>, i: int) {
    && 0 <= i < |ss|
    && IndexedAt(ss, key, ss[i], i)
    && var p := FirstRoll(ss, ss[i].roll);
       p <= i && Keys(ss)[p] == key && after == ss[..p] + ss[p + 1..]
  }

  /** The first record with exactly the roll of record i comes no later and
      has the same key. */
  lemma FirstRollKey(ss: seq<Student>, i: int)
    requires 0 <= i < |ss|
    ensures var p := FirstRoll(ss, ss[i].roll);
      p <= i && Keys(ss)[p] == Keys(ss)[i]
  {
    var p := FirstRoll(ss, ss[i].roll);
    assert p <= i < |ss| && ss[p].roll == ss[i].roll;
  }

  /** Each handler keeps the normalised rolls unique. */
  lemma AddStepUnique(ss: seq<Student>, rollRaw: string, nameRaw: string, gpa: GpaField)
    requires UniqueRolls(ss)
    ensures UniqueRolls(AddStep(ss, rollRaw, nameRaw, gpa).after)
  {
    var o := AddStep(ss, rollRaw, nameRaw, gpa);
    if o.result.Success? {
      var s := o.result.value;
      ValidatedIsKeyed(rollRaw, nameRaw, gpa, true);
      KeysSnoc(ss, s);
      AddKeepsDistinct(Keys(ss), RollKey(s));
    }
  }

  lemma UpdateStepUnique(ss: seq<Student>, original: Option<string>, rollRaw: string, nameRaw: string, gpa: GpaField)
    requires UniqueRolls(ss)
    ensures UniqueRolls(UpdateStep(ss, original, rollRaw, nameRaw, gpa).after)
  {
    var o := UpdateStep(ss, original, rollRaw, nameRaw, gpa);
    if o.result.Success? {
      var s := o.result.value;
      ValidatedIsKeyed(rollRaw, nameRaw, gpa, true);
      var p :| 0 <= p < |ss| && Keys(ss)[p] == NormalizeRoll(original.value) && o.after == ss[p := s];
      KeysUpdate(ss, p, s);
      UpdateKeepsDistinct(Keys(ss), p, RollKey(s));
    }
  }

  lemma DeleteStepUnique(ss: seq<Student>, rollRaw: string, confirmed: bool)
    requires UniqueRolls(ss)
    ensures UniqueRolls(DeleteStep(ss, rollRaw, confirmed).after)
  {
    if DeleteStep(ss, rollRaw, confirmed).result.Success? {
      DeleteStepRemoves(ss, rollRaw, confirmed);
    }
  }

  /** With unique rolls, a deletion removes exactly the one record with the
      reported key and leaves that key unused. */
  lemma DeleteStepRemoves(ss: seq<Student>, rollRaw: string, confirmed: bool)
    requires UniqueRolls(ss) && DeleteStep(ss, rollRaw, confirmed).result.Success?
    ensures var o := DeleteStep(ss, rollRaw, confirmed);
      && UniqueRolls(o.after) && !HasKey(o.after, NormalizeRoll(rollRaw)) && |o.after| == |ss| - 1
      && exists i :: 0 <= i < |ss| && Keys(ss)[i] == o.result.value && o.after == ss[..i] + ss[i + 1..]
  {
    var o := DeleteStep(ss, rollRaw, confirmed);
    var i := DeletePosition(ss, rollRaw, confirmed);
    DeleteTakesIndexed(ss, i);
    assert Keys(ss)[i] == o.result.value && o.after == ss[..i] + ss[i + 1..];
    RemoveKeepsUnique(ss, i);
  }

  /** Removing record i from records with unique rolls keeps them unique and
      leaves its key unused. */
  lemma RemoveKeepsUnique(ss: seq<Student>, i: int)
    requires UniqueRolls(ss) && 0 <= i < |ss|
    ensures var t := ss[..i] + ss[i + 1..];
      UniqueRolls(t) && !HasKey(t, RollKey(ss[i])) && |t| == |ss| - 1
  {
    var ks, t := Keys(ss), ss[..i] + ss[i + 1..];
    KeysRemove(ss, i);
    RemoveMembers(ks, i);
    assert Keys(t) == ks[..i] + ks[i + 1..] && ks[i] == RollKey(ss[i]);
  }

  /** With unique rolls, giving record p a new record s whose roll is its own
      key, and no other record's, moves the index entry of the old key to the
      new one. */
  lemma IndexAfterRekey<N>(ns: seq<N>, ss: seq<Student>, p: int, s: Student)
    requires |ns| == |ss| && 0 <= p < |ss| && UniqueRolls(ss) && RollKey(s) == s.roll
    requires s.roll == Keys(ss)[p] || !HasKey(ss, s.roll)
    ensures IndexFor(ns, Keys(ss[p := s])) == (IndexFor(ns, Keys(ss)) - {Keys(ss)[p]})[s.roll := ns[p]]
  {
    var ks := Keys(ss);
    KeysUpdate(ss, p, s);
    UpdateKeepsDistinct(ks, p, s.roll);
    IndexForUpdate(ns, ks, p, s.roll);
  }

  /** With unique rolls, removing the first record with the exact roll of
      record i removes record i, and the index of what is left is the index
      without that record's key. */
  lemma IndexAfterRemove<N>(ns: seq<N>, ss: seq<Student>, i: int, ns': seq<N>, ss': seq<Student>)
    requires |ns| == |ss| && UniqueRolls(ss) && 0 <= i < |ss|
    requires var p := FirstRoll(ss, ss[i].roll);
      ns' == ns[..p] + ns[p + 1..] && ss' == ss[..p] + ss[p + 1..]
    ensures IndexFor(ns', Keys(ss')) == IndexFor(ns, Keys(ss)) - {Keys(ss)[i]}
  {
    DeleteTakesIndexed(ss, i);
    var ks := Keys(ss);
    KeysRemove(ss, i);
    IndexForRemove(ns, ks, i);
  }

  /** A deletion removes the indexed record itself when rolls are unique: the
      first record with its exact roll is that record. */
  lemma DeleteTakesIndexed(ss: seq<Student>, p: int)
    requires UniqueRolls(ss) && 0 <= p < |ss|
    ensures FirstRoll(ss, ss[p].roll) == p
  {
    FirstRollKey(ss, p);
  }

  /** The keys sort_and_refresh sorts by. */
  function RollOrder(s: Student): Key {
    Chars(NormalizeRoll(s.roll))
  }

  function NameOrder(s: Student): Key {
    Chars(Lower(s.name))
  }

  function GpaOrder(s: Student): Key {
    Number(s.gpa)
  }

  /** The key chosen by the sort menu entry; any other entry sorts by roll. */
  function KeyFor(keyName: string): Student -> Key {
    if keyName == "name" then NameOrder
    else if keyName == "gpa" then GpaOrder
    else RollOrder
  }

  /** Each key function of sort_and_refresh gives keys of one kind, numbers
      exactly for "gpa", so the sort only ever compares like with like; an
      entry other than "name" and "gpa" sorts by the roll key. */
  lemma KeyForOneKind(keyName: string, s: Student, t: Student)
    ensures KeyFor(keyName)(s).Number? <==> keyName == "gpa"
    ensures KeyFor(keyName)(s).Chars? == KeyFor(keyName)(t).Chars?
    ensures keyName == "name" ==> KeyFor(keyName)(s) == Chars(Lower(s.name))
    ensures keyName == "gpa" ==> KeyFor(keyName)(s) == Number(s.gpa)
    ensures keyName != "name" && keyName != "gpa" ==> KeyFor(keyName)(s) == Chars(RollKey(s))
  {
  }

  /** Sorting by roll is idempotent on records with unique rolls: any two
      sorted rearrangements of them are the same sequence, so a second sort
      by roll keeps the order of the first. */
  lemma RollSortDetermined(ss: seq<Student>, tt: seq<Student>, keyName: string)
    requires keyName != "name" && keyName != "gpa"
    requires UniqueRolls(ss) && multiset(ss) == multiset(tt)
    requires Sorted(ss, KeyFor(keyName)) && Sorted(tt, KeyFor(keyName))
    ensures ss == tt
  {
    forall p, q | 0 <= p < q < |ss|
      ensures KeyFor(keyName)(ss[p]) != KeyFor(keyName)(ss[q])
    {
      assert Keys(ss)[p] != Keys(ss)[q];
    }
    SortedUnique(ss, tt, KeyFor(keyName));
  }

  /** Python's list.reverse(), as a value. */
  function Reversed(s: seq<Student>): (r: seq<Student>)
    ensures |r| == |s| && forall i :: 0 <= i < |s| ==> r[i] == s[|s| - 1 - i]
  {
    if s == [] then [] else [s[|s| - 1]] + Reversed(s[..|s| - 1])
  }

  lemma {:induction false} ReversedMultiset(s: seq<Student>)
    ensures multiset(Reversed(s)) == multiset(s)
  {
    if s != [] {
      ReversedMultiset(s[..|s| - 1]);
      assert s == s[..|s| - 1] + [s[|s| - 1]];
    }
  }

  ghost predicate GpaDescending(ss: seq<Student>) {
    forall p, q :: 0 <= p < q < |ss| ==> ss[p].gpa >= ss[q].gpa
  }

  /** Sorting by GPA and reversing lists the highest GPA first. */
  lemma ReversedDescending(s: seq<Student>)
    requires Sorted(s, GpaOrder)
    ensures GpaDescending(Reversed(s))
  {
    var r := Reversed(s);
    forall p, q | 0 <= p < q < |r|
      ensures r[p].gpa >= r[q].gpa
    {
      assert KeyLe(GpaOrder(s[|s| - 1 - q]), GpaOrder(s[|s| - 1 - p]));
    }
  }

  /** A record that occurs twice in a sequence occurs at two positions. */
  lemma TwoPositions(s: seq<Student>, x: Student)
    requires multiset(s)[x] >= 2
    ensures exists p, q :: 0 <= p < q < |s| && s[p] == x && s[q] == x
  {
    assert x in s;
    var p :| 0 <= p < |s| && s[p] == x;
    var f := FirstAt(s, x, p);
    var tail := s[f + 1..];
    assert multiset(tail)[x] >= 1 by {
      CountSplit(s, f + 1, x);
      FirstCounted(s, x, f);
    }
    var q :| 0 <= q < |tail| && tail[q] == x;
    assert s[f + 1 + q] == x;
  }

  /** Counting x on both sides of a cut. */
  lemma CountSplit(s: seq<Student>, k: int, x: Student)
    requires 0 <= k <= |s|
    ensures multiset(s)[x] == multiset(s[..k])[x] + multiset(s[k..])[x]
  {
    assert s == s[..k] + s[k..];
  }

  /** Up to and including its first position, x occurs once. */
  lemma FirstCounted(s: seq<Student>, x: Student, f: int)
    requires 0 <= f < |s| && s[f] == x && forall i :: 0 <= i < f ==> s[i] != x
    ensures multiset(s[..f + 1])[x] == 1
  {
    assert s[..f + 1] == s[..f] + [x];
    assert x !in s[..f];
  }

  /** A record at two positions occurs twice. */
  lemma TwiceCounted(s: seq<Student>, p: int, q: int)
    requires 0 <= p < q < |s| && s[p] == s[q]
    ensures multiset(s)[s[q]] >= 2
  {
    assert s == s[..q] + [s[q]] + s[q + 1..];
    assert s[p] == s[..q][p];
  }

  /** The first position of x, given that x is at p. */
  function FirstAt(s: seq<Student>, x: Student, p: int): (f: int)
    requires 0 <= p < |s| && s[p] == x
    ensures 0 <= f <= p && s[f] == x && forall i :: 0 <= i < f ==> s[i] != x
    decreases p
  {
    if p == 0 then 0
    else if x in s[..p] then
      var i :| 0 <= i < p && s[..p][i] == x;
      FirstAt(s, x, i)
    else p
  }

  /** Two positions of a rearrangement come from two positions of the original. */
  lemma RearrangedPositions(ss: seq<Student>, tt: seq<Student>, p: int, q: int)
    requires multiset(ss) == multiset(tt) && 0 <= p < q < |tt|
    ensures exists i, j :: 0 <= i < |ss| && 0 <= j < |ss| && i != j && ss[i] == tt[p] && ss[j] == tt[q]
  {
    if tt[p] == tt[q] {
      TwiceCounted(tt, p, q);
      TwoPositions(ss, tt[q]);
    } else {
      assert tt[p] in multiset(tt) && tt[q] in multiset(tt);
      var i :| 0 <= i < |ss| && ss[i] == tt[p];
      var j :| 0 <= j < |ss| && ss[j] == tt[q];
    }
  }

  /** Rearranging the records keeps rolls unique, so sorting does. */
  lemma PermutationKeepsUnique(ss: seq<Student>, tt: seq<Student>)
    requires multiset(ss) == multiset(tt) && UniqueRolls(ss)
    ensures UniqueRolls(tt)
  {
    forall p, q | 0 <= p < q < |tt|
      ensures Keys(tt)[p] != Keys(tt)[q]
    {
      RearrangedPositions(ss, tt, p, q);
      var i, j :| 0 <= i < |ss| && 0 <= j < |ss| && i != j && ss[i] == tt[p] && ss[j] == tt[q];
      assert Keys(ss)[i] != Keys(ss)[j];
    }
  }
}
