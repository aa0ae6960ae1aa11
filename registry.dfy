/** The registry and runner, `struct Cest`: a singly linked list of enrolled
    records rooted at `first`, with enrolment at the tail, lookup by namespace
    and name, and the run over every record in enrolment order. */
module Registry {
  import opened CStrings
  import opened Records
  import opened Report

  /** C's 32-bit `int`, the type of the runner's counters and result. */
  newtype Int32 = x: int | -0x8000_0000 <= x < 0x8000_0000

  const IntMax: nat := 0x7fff_ffff

  /** The status `exit` is called with when a lookup finds nothing. */
  const NotFoundStatus: int := 1337

  /** `struct cest_node`: one link of the list. */
  class CestNode {
    const cest: CestRecord
    var next: CestNode?

    constructor (cest: CestRecord)
      ensures this.cest == cest && next == null
    {
      this.cest := cest;
      next := null;
    }
  }

  /** A lookup either hands back a record or ends the process with a status. */
  datatype Lookup = Found(cest: CestRecord) | Exit(status: int)

  /** `strcmp` finds both the stored namespace and the stored name equal to the
      query's. */
  predicate Matches(c: CestRecord, namespace: string, name: string)
  {
    c.Namespace() == CString(namespace) && c.Name() == CString(name)
  }

  /** Among the records from position `k` on, the one at `j` is the first that
      matches the query. */
  ghost predicate FirstMatchFrom(recs: seq<CestRecord>, k: int, namespace: string, name: string, j: int)
  {
    0 <= k <= j < |recs| && Matches(recs[j], namespace, name) &&
    forall i :: k <= i < j ==> !Matches(recs[i], namespace, name)
  }

  /** Past a record that does not match, the first match is the same from
      either position. */
  lemma FirstMatchStep(recs: seq<CestRecord>, k: int, namespace: string, name: string, j: int)
    requires 0 <= k < |recs| && !Matches(recs[k], namespace, name)
    ensures FirstMatchFrom(recs, k, namespace, name, j) <==> FirstMatchFrom(recs, k + 1, namespace, name, j)
  {
  }

  /** There is at most one first match. */
  lemma FirstMatchUnique(recs: seq<CestRecord>, k: int, namespace: string, name: string, j1: int, j2: int)
    requires FirstMatchFrom(recs, k, namespace, name, j1)
    requires FirstMatchFrom(recs, k, namespace, name, j2)
    ensures j1 == j2
  {
  }

  /** Enrolling more records leaves the first match where it was. */
  lemma FirstMatchKept(recs: seq<CestRecord>, more: seq<CestRecord>, k: int, namespace: string, name: string, j: int)
    requires FirstMatchFrom(recs, k, namespace, name, j)
    ensures FirstMatchFrom(recs + more, k, namespace, name, j)
  {
    var all := recs + more;
    assert forall i :: 0 <= i < |recs| ==> all[i] == recs[i];
  }

  /** A query longer than a buffer can hold never matches a record whose
      buffers end in a NUL. */
  lemma LongQueryNeverMatches(c: CestRecord, namespace: string, name: string)
    requires c.Valid()
    requires |CString(namespace)| >= NamespaceSize || |CString(name)| >= NameSize
    ensures !Matches(c, namespace, name)
  {
    CStringBound(c.namespace, NamespaceSize - 1);
    CStringBound(c.name, NameSize - 1);
  }

  /** The family object `Cest`, holding the root of the list of tests. */
  class Cest {
    var first: CestNode?
    /** The enrolled records, in enrolment order. */
    ghost var Contents: seq<CestRecord>
    /** The nodes of the list, from `first` to the tail. */
    ghost var Nodes: seq<CestNode>
    /** The nodes. */
    ghost var Repr: set<object>

    ghost predicate Valid()
      reads this, Repr
    {
      Linked() && forall i :: 0 <= i < |Contents| ==> Contents[i].Valid()
    }

    /** The nodes form the list from `first`: each holds the record at its
        position and links to the next one, the last link is NULL, and no node
        occurs twice. */
    ghost predicate Linked()
      reads this, Repr
    {
      (forall i :: 0 <= i < |Nodes| ==> Nodes[i] in Repr) &&
      |Nodes| == |Contents| &&
      first == (if Nodes == [] then null else Nodes[0]) &&
      (forall i :: 0 <= i < |Nodes| ==> Nodes[i].cest == Contents[i]) &&
      (forall i {:trigger Nodes[i].next} :: 0 <= i < |Nodes| ==>
        Nodes[i].next == if i + 1 < |Nodes| then Nodes[i + 1] else null) &&
      (forall i, j :: 0 <= i < j < |Nodes| ==> Nodes[i] != Nodes[j])
    }

    /** The static initialiser: no test is enrolled yet. */
    constructor ()
      ensures Valid() && fresh(Repr)
      ensures first == null && Contents == [] && Nodes == []
    {
      first := null;
      Contents := [];
      Nodes := [];
      Repr := {};
    }

    /** The walk in `Cest__enroll` from `first` along `next` to the node whose
        `next` is NULL. */
    method Tail() returns (tail: CestNode)
      requires Valid() && first != null
      ensures tail == Nodes[|Nodes| - 1] && tail.next == null
    {
      tail := first;
      ghost var k := 0;
      while tail.next != null
        invariant 0 <= k < |Nodes| && tail == Nodes[k]
        decreases |Nodes| - k
      {
        tail := tail.next;
        k := k + 1;
      }
    }

    /** `Cest__enroll`: append a node holding `c` at the tail of the list. The
        records enrolled before keep their nodes, their positions and their
        first matches. */
    method Enroll(c: CestRecord)
      requires Valid() && c.Valid()
      modifies this, Nodes
      ensures Valid()
      ensures Contents == old(Contents) + [c]
      ensures |Nodes| == |old(Nodes)| + 1 && Nodes[..|old(Nodes)|] == old(Nodes)
      ensures fresh(Nodes[|Nodes| - 1])
      ensures first == if old(first) == null then Nodes[0] else old(first)
      ensures forall k, namespace, name, j :: FirstMatchFrom(old(Contents), k, namespace, name, j)
                ==> FirstMatchFrom(Contents, k, namespace, name, j)
    {
      var node := new CestNode(c);
      if first == null {
        first := node;
      } else {
        var current := Tail();
        current.next := node;
      }
      Nodes, Contents, Repr := Nodes + [node], Contents + [c], Repr + {node};
      assert Linked();
      forall k, namespace, name, j | FirstMatchFrom(old(Contents), k, namespace, name, j)
        ensures FirstMatchFrom(Contents, k, namespace, name, j)
      {
        FirstMatchKept(old(Contents), [c], k, namespace, name, j);
      }
    }

    /** `_Cest__of`: look for the query from `node`, the node at position `k`,
        onwards. It returns the first record there that matches, and calls
        `exit(1337)` when the tail is reached without a match. */
    function OfFrom(namespace: string, name: string, node: CestNode, ghost k: nat): (r: Lookup)
      requires Valid() && k < |Nodes| && node == Nodes[k]
      reads this, Repr
      ensures r.Found? <==> exists j :: FirstMatchFrom(Contents, k, namespace, name, j)
      ensures r.Found? ==> exists j :: FirstMatchFrom(Contents, k, namespace, name, j) && r.cest == Contents[j]
      ensures r.Exit? ==> r.status == NotFoundStatus
                          && forall j :: k <= j < |Contents| ==> !Matches(Contents[j], namespace, name)
      decreases |Nodes| - k
    {
      var last := node.cest;
      if Matches(last, namespace, name) then
        assert FirstMatchFrom(Contents, k, namespace, name, k);
        Found(last)
      else if node.next != null then
        var r := OfFrom(namespace, name, node.next, k + 1);
        assert r.Found? ==> exists j :: FirstMatchFrom(Contents, k, namespace, name, j) && r.cest == Contents[j] by {
          if r.Found? {
            var j :| FirstMatchFrom(Contents, k + 1, namespace, name, j) && r.cest == Contents[j];
            FirstMatchStep(Contents, k, namespace, name, j);
          }
        }
        assert (exists j :: FirstMatchFrom(Contents, k, namespace, name, j)) ==> r.Found? by {
          if exists j :: FirstMatchFrom(Contents, k, namespace, name, j) {
            var j :| FirstMatchFrom(Contents, k, namespace, name, j);
            FirstMatchStep(Contents, k, namespace, name, j);
          }
        }
        r
      else
        Exit(NotFoundStatus)
    }

    /** `Cest__of`: look the query up from `first`. The list must not be empty,
        since `first` is dereferenced before anything is compared. */
    function Of(namespace: string, name: string): (r: Lookup)
      requires Valid() && first != null
      reads this, Repr
      ensures r.Found? ==> exists j :: FirstMatchFrom(Contents, 0, namespace, name, j) && r.cest == Contents[j]
      ensures r.Exit? <==> forall j :: 0 <= j < |Contents| ==> !Matches(Contents[j], namespace, name)
      ensures r.Exit? ==> r.status == NotFoundStatus
    {
      var r := OfFrom(namespace, name, first, 0);
      assert r.Found? ==> Matches(r.cest, namespace, name) && r.cest in Contents;
      r
    }

    /** The lookup hands back the record at the first position that matches:
        a later record with the same namespace and name is never returned. */
    lemma OfFindsFirst(namespace: string, name: string, i: int)
      requires Valid() && 0 <= i < |Contents| && Matches(Contents[i], namespace, name)
      requires forall j :: 0 <= j < i ==> !Matches(Contents[j], namespace, name)
      ensures first != null
      ensures Of(namespace, name) == Found(Contents[i])
    {
      assert FirstMatchFrom(Contents, 0, namespace, name, i);
      var r := Of(namespace, name);
      var j :| FirstMatchFrom(Contents, 0, namespace, name, j) && r.cest == Contents[j];
      FirstMatchUnique(Contents, 0, namespace, name, i, j);
    }

    /** A query whose namespace or name is too long for the buffers makes the
        lookup exit, since every stored string was truncated to fit. */
    lemma LongQueryExits(namespace: string, name: string)
      requires Valid() && first != null
      requires |CString(namespace)| >= NamespaceSize || |CString(name)| >= NameSize
      ensures Of(namespace, name) == Exit(NotFoundStatus)
    {
      forall j | 0 <= j < |Contents| ensures !Matches(Contents[j], namespace, name) {
        LongQueryNeverMatches(Contents[j], namespace, name);
      }
    }

    /** `Cest__run_all`: execute every record once, in enrolment order, one
        status line each, then a summary line. The result is `total - successes`,
        the number of failed tests. */
    method RunAll() returns (failed: Int32, lines: seq<Line>)
      requires Valid() && |Contents| <= IntMax
      ensures failed as int == Count(Outcomes(Contents), Failure)
      ensures 0 <= failed as int <= |Contents|
      ensures failed == 0 <==> forall i :: 0 <= i < |Contents| ==> Execute(Contents[i]) != Failure
      ensures lines == TestLines(Contents) + [Summary(Outcomes(Contents))]
    {
      var total, successes, pends := 0, 0, 0;
      var currentNode := first;
      ghost var outs := Outcomes(Contents);
      lines := [];
      while currentNode != null
        invariant 0 <= total <= |Nodes|
        invariant currentNode == if total < |Nodes| then Nodes[total] else null
        invariant successes == SuccessesIn(outs, total) && pends == PendsIn(outs, total)
        invariant |lines| == total && forall i :: 0 <= i < total ==> lines[i] == TestLine(Contents[i])
        decreases |Nodes| - total
      {
        var current := currentNode.cest;
        var returnValue := Ordinal(Execute(current));
        assert outs[total] == Execute(current);
        if returnValue != 0 {
          successes := successes + 1;
        }
        if returnValue - 1 != 0 {
          pends := pends + 1;
        }
        lines := lines + [StatusLine(current.namespace, ColourOfValue(returnValue), current.name)];
        total, currentNode := total + 1, currentNode.next;
      }
      assert lines == TestLines(Contents);
      lines := lines + [SummaryLine(SummaryColour(successes, total, pends), successes, total)];
      FailedTests(Contents);
      failed := (total - successes) as Int32;
    }
  }
}
