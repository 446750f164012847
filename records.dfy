/** The student record and its dictionary form, the shape in which records go to
    and come back from the JSON file (Student.to_dict / Student.from_dict). */
module Records {

  datatype Result<T, E> = Success(value: T) | Failure(error: E)

  /** A student record. The roll is stored as given (normalised on add and
      update, possibly not on load); the GPA, a float in the program, is a real. */
  datatype Student = Student(roll: string, name: string, gpa: real)

  /** A value of a record's dictionary form: a JSON string or a JSON number. */
  datatype Value = Str(s: string) | Num(x: real)

  type Dict = map<string, Value>

  /** What from_dict can fail with: a missing key (Python's KeyError), or a
      value of the wrong kind for its field. */
  datatype LoadError = MissingKey(key: string) | WrongKind(key: string)

  /** Student.to_dict: the three fields under the keys "roll", "name", "gpa". */
  function ToDict(s: Student): (d: Dict)
    ensures d.Keys == {"roll", "name", "gpa"}
  {
    map["roll" := Str(s.roll), "name" := Str(s.name), "gpa" := Num(s.gpa)]
  }

  /** Student.from_dict: reads the three keys in the order the constructor call
      evaluates them; keys other than these three are ignored. On success the
      record's own dictionary form agrees with d on the three keys. */
  function FromDict(d: Dict): (r: Result<Student, LoadError>)
    ensures r.Success? <==>
      && "roll" in d && d["roll"].Str?
      && "name" in d && d["name"].Str?
      && "gpa" in d && d["gpa"].Num?
    ensures r.Success? ==> forall k :: k in ToDict(r.value) ==> k in d && d[k] == ToDict(r.value)[k]
    ensures r.Failure? && "roll" !in d ==> r.error == MissingKey("roll")
  {
    if "roll" !in d then Failure(MissingKey("roll"))
    else if "name" !in d then Failure(MissingKey("name"))
    else if "gpa" !in d then Failure(MissingKey("gpa"))
    else if !d["roll"].Str? then Failure(WrongKind("roll"))
    else if !d["name"].Str? then Failure(WrongKind("name"))
    else if !d["gpa"].Num? then Failure(WrongKind("gpa"))
    else Success(Student(d["roll"].s, d["name"].s, d["gpa"].x))
  }

  /** from_dict undoes to_dict field for field. */
  lemma DictRoundTrip(s: Student)
    ensures FromDict(ToDict(s)) == Success(s)
  {
  }

  /** The array of dictionaries save_students_to_file serialises, in list order. */
  function SaveRecords(ss: seq<Student>): (ds: seq<Dict>)
    ensures |ds| == |ss|
    ensures forall i :: 0 <= i < |ss| ==> ds[i] == ToDict(ss[i])
  {
    seq(|ss|, i requires 0 <= i < |ss| => ToDict(ss[i]))
  }

  /** The list comprehension of load_students_from_file: from_dict on every
      element in order; the first failure aborts the whole load. */
  function LoadRecords(ds: seq<Dict>): (r: Result<seq<Student>, LoadError>)
    ensures r.Success? ==> |r.value| == |ds|
    ensures r.Success? <==> forall i :: 0 <= i < |ds| ==> FromDict(ds[i]).Success?
    ensures r.Success? ==> forall i :: 0 <= i < |ds| ==> Success(r.value[i]) == FromDict(ds[i])
  {
    if ds == [] then Success([])
    else match FromDict(ds[0])
      case Failure(e) => Failure(e)
      case Success(s) =>
        match LoadRecords(ds[1..])
        case Failure(e) => Failure(e)
        case Success(rest) =>
          assert forall i :: 1 <= i < |ds| ==> ds[1..][i - 1] == ds[i];
          Success([s] + rest)
  }

  /** Loading what was saved gives back the same records in the same order. */
  lemma {:induction false} SaveLoadRoundTrip(ss: seq<Student>)
    ensures LoadRecords(SaveRecords(ss)) == Success(ss)
  {
    if ss != [] {
      assert SaveRecords(ss)[1..] == SaveRecords(ss[1..]);
      SaveLoadRoundTrip(ss[1..]);
      DictRoundTrip(ss[0]);
      assert ss == [ss[0]] + ss[1..];
    }
  }

  /** What load_students_from_file finds: no file, a file that cannot be read
      or parsed as a JSON array, or the array of dictionaries it holds. */
  datatype Stored = NoFile | Corrupt | Saved(ds: seq<Dict>)

  /** load_students_from_file: every failure, including a record from_dict
      rejects, gives the empty list. */
  function LoadStudents(f: Stored): (ss: seq<Student>)
    ensures f.Saved? && LoadRecords(f.ds).Success? ==> ss == LoadRecords(f.ds).value
    ensures !(f.Saved? && LoadRecords(f.ds).Success?) ==> ss == []
  {
    match f
    case NoFile => []
    case Corrupt => []
    case Saved(ds) =>
      match LoadRecords(ds)
      case Success(ss) => ss
      case Failure(_) => []
  }

  /** What save_students_to_file writes, load_students_from_file reads back. */
  lemma SaveThenLoad(ss: seq<Student>)
    ensures LoadStudents(Saved(SaveRecords(ss))) == ss
  {
    SaveLoadRoundTrip(ss);
  }
}
