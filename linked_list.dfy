/** The singly linked list of student nodes (Node, LinkedList). The ghost
    sequence `nodes` lists the nodes from the head and the ghost sequence
    `students` their records; Valid() ties both to the `head`, `next`,
    `student` and `size` fields. */
module LinkedLists {
  import opened Records

  class Node {
    var student: Student
    var next: Node?

    constructor (student: Student)
      ensures this.student == student && next == null
    {
      this.student := student;
      next := null;
    }
  }

  /** Position of the first record whose roll equals `roll` character for
      character, or |ss| when there is none. */
  function FirstRoll(ss: seq<Student>, roll: string): (p: nat)
    ensures p <= |ss|
    ensures forall i :: 0 <= i < p ==> ss[i].roll != roll
    ensures p < |ss| ==> ss[p].roll == roll
  {
    if ss == [] then 0
    else if ss[0].roll == roll then 0
    else 1 + FirstRoll(ss[1..], roll)
  }

  /** What was there before an append is the prefix of the result. */
  lemma PrefixOfSnoc<T>(s: seq<T>, x: T)
    ensures (s + [x])[..|s|] == s
  {
  }

  /** Cutting out position 0 is dropping the first element. */
  lemma DropFirst<T>(s: seq<T>)
    requires s != []
    ensures s[..0] + s[1..] == s[1..]
  {
  }

  class LinkedList {
    var head: Node?
    var size: int
    ghost var nodes: seq<Node>
    ghost var students: seq<Student>

    /** The nodes are distinct, chained by `next` from `head` to a final null,
        hold the records of `students` in order, and `size` counts them. */
    ghost predicate Valid()
      reads this, nodes
    {
      && size == |nodes| == |students|
      && (forall i :: 0 <= i < |nodes| ==> nodes[i].student == students[i])
      && head == (if nodes == [] then null else nodes[0])
      && (forall i {:trigger nodes[i].next} :: 0 <= i < |nodes| - 1 ==> nodes[i].next == nodes[i + 1])
      && (nodes != [] ==> nodes[|nodes| - 1].next == null)
      && (forall i, j :: 0 <= i < j < |nodes| ==> nodes[i] != nodes[j])
    }

    constructor ()
      ensures Valid() && nodes == [] && students == []
    {
      head := null;
      size := 0;
      nodes := [];
      students := [];
    }

    /** append: walks to the tail and links a fresh node holding s there. */
    method Append(s: Student) returns (node: Node)
      requires Valid()
      modifies this, nodes
      ensures Valid()
      ensures fresh(node) && nodes == old(nodes) + [node]
      ensures students == old(students) + [s]
      ensures size == old(size) + 1 && size == |students|
    {
      node := new Node(s);
      if head == null {
        head := node;
      } else {
        var cur := head;
        ghost var k := 0;
        while cur.next != null
          invariant Valid()
          invariant 0 <= k < |nodes| && cur == nodes[k]
          decreases |nodes| - k
        {
          cur := cur.next;
          k := k + 1;
        }
        assert k == |nodes| - 1;
        cur.next := node;
      }
      size := size + 1;
      nodes := nodes + [node];
      students := students + [s];
    }

    /** to_list: the records in list order. */
    method ToList() returns (arr: seq<Student>)
      requires Valid()
      ensures arr == students
    {
      arr := [];
      var cur := head;
      ghost var k := 0;
      while cur != null
        invariant 0 <= k <= |nodes|
        invariant cur == if k < |nodes| then nodes[k] else null
        invariant arr == students[..k]
        decreases |nodes| - k
      {
        arr := arr + [cur.student];
        cur := cur.next;
        k := k + 1;
      }
    }

    /** rebuild_from_list: empties the list and appends every record of xs in
        order, into fresh nodes. */
    method RebuildFromList(xs: seq<Student>)
      modifies this
      ensures Valid()
      ensures students == xs && size == |xs|
      ensures forall i :: 0 <= i < |nodes| ==> fresh(nodes[i])
    {
      head := null;
      size := 0;
      nodes := [];
      students := [];
      for k := 0 to |xs|
        invariant Valid()
        invariant students == xs[..k]
        invariant forall i :: 0 <= i < |nodes| ==> fresh(nodes[i])
      {
        var node := Append(xs[k]);
        assert xs[..k + 1] == xs[..k] + [xs[k]];
      }
    }

    /** remove_by_roll: unlinks the first node whose roll equals `roll` exactly
        and reports whether there was one; with none, nothing changes. */
    method RemoveByRoll(roll: string) returns (removed: bool)
      requires Valid()
      modifies this, nodes
      ensures Valid()
      ensures removed <==> exists i :: 0 <= i < |old(students)| && old(students)[i].roll == roll
      ensures var p := FirstRoll(old(students), roll);
        if removed then
          && nodes == old(nodes)[..p] + old(nodes)[p + 1..]
          && students == old(students)[..p] + old(students)[p + 1..]
          && size == old(size) - 1
        else
          nodes == old(nodes) && students == old(students) && size == old(size)
    {
      ghost var ss := students;
      var prev: Node? := null;
      var cur := head;
      ghost var k := 0;
      while cur != null
        invariant Valid() && ss == students
        invariant 0 <= k <= |nodes|
        invariant cur == if k < |nodes| then nodes[k] else null
        invariant prev == if k == 0 then null else nodes[k - 1]
        invariant forall i :: 0 <= i < k ==> ss[i].roll != roll
        decreases |nodes| - k
      {
        if cur.student.roll == roll {
          assert FirstRoll(ss, roll) == k;
          Unlink(prev, cur, k);
          removed := true;
          return;
        }
        prev := cur;
        cur := cur.next;
        k := k + 1;
      }
      removed := false;
    }

    /** The unlinking step of remove_by_roll: `cur` is the k-th node and `prev`
        the one before it (null at the head); `cur` leaves the chain. */
    method Unlink(prev: Node?, cur: Node, ghost k: nat)
      requires Valid() && k < |nodes| && cur == nodes[k]
      requires prev == if k == 0 then null else nodes[k - 1]
      modifies this, nodes
      ensures Valid()
      ensures nodes == old(nodes)[..k] + old(nodes)[k + 1..]
      ensures students == old(students)[..k] + old(students)[k + 1..]
      ensures size == old(size) - 1
    {
      if prev == null {
        ghost var ns, ss := nodes, students;
        DropFirst(ns);
        DropFirst(ss);
        UnlinkHead();
      } else {
        UnlinkAfter(prev, cur, k);
      }
    }

    /** Unlinking the head node: head moves to its successor. */
    method UnlinkHead()
      requires Valid() && nodes != []
      modifies this
      ensures Valid() && nodes == old(nodes)[1..] && size == old(size) - 1
      ensures students == old(students)[1..]
    {
      head := head.next;
      size := size - 1;
      nodes := nodes[1..];
      students := students[1..];
    }

    /** Unlinking the k-th node, k > 0: its predecessor skips over it. */
    method UnlinkAfter(prev: Node, cur: Node, ghost k: nat)
      requires Valid() && 0 < k < |nodes| && prev == nodes[k - 1] && cur == nodes[k]
      modifies this, prev
      ensures Valid()
      ensures nodes == old(nodes)[..k] + old(nodes)[k + 1..]
      ensures students == old(students)[..k] + old(students)[k + 1..]
      ensures size == old(size) - 1
    {
      ghost var was := nodes;
      ghost var ss := students;
      prev.next := cur.next;
      size := size - 1;
      nodes := was[..k] + was[k + 1..];
      students := ss[..k] + ss[k + 1..];
      assert forall i :: 0 <= i < |nodes| ==> nodes[i] == was[if i < k then i else i + 1];
      forall i | 0 <= i < |nodes| - 1
        ensures nodes[i].next == nodes[i + 1]
      {
        if i < k - 1 {
          assert was[i] != prev && old(was[i].next) == was[i + 1];
        } else if k <= i {
          assert was[i + 1] != prev && old(was[i + 1].next) == was[i + 2];
        }
      }
      assert nodes[|nodes| - 1].next == null by {
        if k < |was| - 1 {
          assert was[|was| - 1] != prev;
        }
      }
      assert forall i :: 0 <= i < |nodes| ==> nodes[i].student == students[i];
      assert forall i, j :: 0 <= i < j < |nodes| ==> nodes[i] != nodes[j];
    }

    /** Overwriting the record of the p-th node, as update_student does
        through the node the index holds. */
    method SetStudent(node: Node, ghost p: nat, s: Student)
      requires Valid() && p < |nodes| && node == nodes[p]
      modifies this, node
      ensures Valid() && nodes == old(nodes)
      ensures students == old(students)[p := s]
    {
      node.student := s;
      students := students[p := s];
    }

    /** find_node_by_roll: the first node whose roll equals `roll` exactly, or
        null when there is none. */
    method FindNodeByRoll(roll: string) returns (n: Node?)
      requires Valid()
      ensures n == null <==> forall i :: 0 <= i < |nodes| ==> students[i].roll != roll
      ensures n != null ==> n == nodes[FirstRoll(students, roll)] && n.student.roll == roll
    {
      var cur := head;
      ghost var k := 0;
      while cur != null
        invariant 0 <= k <= |nodes|
        invariant cur == if k < |nodes| then nodes[k] else null
        invariant forall i :: 0 <= i < k ==> nodes[i].student.roll != roll
        decreases |nodes| - k
      {
        if cur.student.roll == roll {
          assert FirstRoll(students, roll) == k;
          return cur;
        }
        cur := cur.next;
        k := k + 1;
      }
      return null;
    }
  }
}
