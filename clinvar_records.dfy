/**
 * The per-record accumulator and the handler that fills it while a record
 * is walked: a `RecordStatus` element directly below the record element
 * sets the record's status.
 */
module ClinVarRecords {

  import opened Common
  import opened XmlTree
  import opened XmlReader

  /** Rust's `u64`. */
  newtype u64 = x: int | 0 <= x < 0x1_0000_0000_0000_0000

  /** The record the handler accumulates. */
  datatype ClinVarRecord = ClinVarRecord(
    clinvarId: u64,
    status: string,
    rcv: string,
    vcv: string,
    clnsig: string,
    description: string,
    dateLastUpdated: string)

  /** The element whose text is the record's status. */
  const StatusTag: string := "RecordStatus"

  /** The depth of the record element's children in a walk from the document root. */
  const StatusDepth: int := 2

  /** A handled node that sets the status: a `RecordStatus` element at depth 2. */
  predicate SetsStatus(node: Node, depth: int) {
    depth == StatusDepth && node.isElement && node.name == StatusTag
  }

  /** `node.text().unwrap_or("")`. */
  function StatusText(node: Node): string {
    match node.text
    case None => ""
    case Some(t) => t
  }

  /**
   * The record after one `handle` call: a status-setting node replaces the
   * status by its text and leaves every other field alone; any other node
   * changes nothing.
   */
  function AfterHandle(rec: ClinVarRecord, node: Node, depth: int): (r: ClinVarRecord)
    ensures r.(status := rec.status) == rec
    ensures SetsStatus(node, depth) ==> r.status == StatusText(node)
    ensures !SetsStatus(node, depth) ==> r == rec
  {
    if SetsStatus(node, depth) then rec.(status := StatusText(node)) else rec
  }

  /** `RecordHandler`, holding the record being filled. */
  class RecordHandler {
    var record: ClinVarRecord

    /** The struct literal that starts a handler from a record. */
    constructor (record: ClinVarRecord)
      ensures this.record == record
    {
      this.record := record;
    }

    /** `handle`: sets the status from a status-setting node; never fails. */
    method Handle(node: Node, currentPath: seq<string>, attributes: map<string, string>, depth: int)
      returns (r: Result<()>)
      modifies this
      ensures r == Ok(())
      ensures record == AfterHandle(old(record), node, depth)
    {
      if depth == StatusDepth {
        if node.isElement && node.name == StatusTag {
          record := record.(status := StatusText(node));
        }
      }
      return Ok(());
    }
  }

  /** The record after a sequence of `handle` calls, in order; whatever the calls, only the status changes. */
  function Replay(rec: ClinVarRecord, visits: seq<Visit>): (r: ClinVarRecord)
    ensures visits == [] ==> r == rec
    ensures r.(status := rec.status) == rec
  {
    if visits == [] then rec
    else
      var last := visits[|visits| - 1];
      AfterHandle(Replay(rec, visits[..|visits| - 1]), last.node, last.depth)
  }

  /** Replaying calls one by one is replaying them all. */
  lemma ReplayExtend(rec: ClinVarRecord, visits: seq<Visit>, v: Visit)
    ensures Replay(rec, visits + [v]) == AfterHandle(Replay(rec, visits), v.node, v.depth)
  {
    assert (visits + [v])[..|visits|] == visits;
  }

  /** Without a status-setting call the record is untouched. */
  lemma {:induction false} ReplayWithoutStatus(rec: ClinVarRecord, visits: seq<Visit>)
    requires forall i :: 0 <= i < |visits| ==> !SetsStatus(visits[i].node, visits[i].depth)
    ensures Replay(rec, visits) == rec
  {
    if visits != [] {
      ReplayWithoutStatus(rec, visits[..|visits| - 1]);
    }
  }

  /** The last status-setting call wins. */
  lemma {:induction false} ReplayLastStatusWins(rec: ClinVarRecord, visits: seq<Visit>, i: nat)
    requires i < |visits| && SetsStatus(visits[i].node, visits[i].depth)
    requires forall j :: i < j < |visits| ==> !SetsStatus(visits[j].node, visits[j].depth)
    ensures Replay(rec, visits).status == StatusText(visits[i].node)
    decreases |visits|
  {
    var n := |visits| - 1;
    if i < n {
      ReplayLastStatusWins(rec, visits[..n], i);
    }
  }

  /** Replaying the same calls twice ends as replaying them once. */
  lemma ReplayTwice(rec: ClinVarRecord, visits: seq<Visit>)
    ensures Replay(Replay(rec, visits), visits) == Replay(rec, visits)
  {
    if exists i :: 0 <= i < |visits| && SetsStatus(visits[i].node, visits[i].depth) {
      var i := LastStatus(visits);
      ReplayLastStatusWins(rec, visits, i);
      ReplayLastStatusWins(Replay(rec, visits), visits, i);
    } else {
      ReplayWithoutStatus(rec, visits);
      ReplayWithoutStatus(Replay(rec, visits), visits);
    }
  }

  /** The index of the last status-setting call, when there is one. */
  lemma {:induction false} LastStatus(visits: seq<Visit>) returns (i: nat)
    requires exists i :: 0 <= i < |visits| && SetsStatus(visits[i].node, visits[i].depth)
    ensures i < |visits| && SetsStatus(visits[i].node, visits[i].depth)
    ensures forall j :: i < j < |visits| ==> !SetsStatus(visits[j].node, visits[j].depth)
  {
    var n := |visits| - 1;
    if SetsStatus(visits[n].node, visits[n].depth) {
      i := n;
    } else {
      assert exists i :: 0 <= i < |visits[..n]| && SetsStatus(visits[..n][i].node, visits[..n][i].depth) by {
        var i :| 0 <= i < |visits| && SetsStatus(visits[i].node, visits[i].depth);
        assert i < n && visits[..n][i] == visits[i];
      }
      i := LastStatus(visits[..n]);
    }
  }

  /**
   * In a walk of a parsed record (a document root below which only elements
   * have children), the status-setting calls are exactly those whose path is the
   * record element and then `RecordStatus`.
   */
  lemma StatusCallsInWalk(root: Node, k: nat)
    requires !root.isElement && LeavesBelow(root)
    requires k < |Calls(root, [], 0)|
    ensures Calls(root, [], 0)[k].Handle?
    ensures var v := Calls(root, [], 0)[k].visit;
      SetsStatus(v.node, v.depth) <==> |v.path| == 2 && v.path[1] == StatusTag
  {
    DepthIsPathLength(root, k);
  }

  /**
   * The document of one record whose `RecordStatus` element holds the text
   * node `t`, as the tree library parses it.
   */
  function StatusDocument(t: string): Node {
    var text := Node(false, "", map[], Some(t), []);
    var status := Node(true, StatusTag, map[], Some(t), [text]);
    Node(false, "", map[], None, [Node(true, RecordTag, map[], None, [status])])
  }

  /**
   * The walk of that document handles the record element at depth 1 and
   * then the `RecordStatus` element at depth 2; the text node gets no call.
   */
  lemma StatusDocumentCalls(t: string)
    ensures var doc := StatusDocument(t); var cs := Calls(doc, [], 0);
      |cs| == 2 && cs[0].Handle? && cs[1].Handle?
      && cs[0].visit.node == doc.children[0] && cs[0].visit.path == [RecordTag] && cs[0].visit.depth == 1
      && cs[1].visit.node == doc.children[0].children[0]
      && cs[1].visit.path == [RecordTag, StatusTag] && cs[1].visit.depth == 2
  {
    var doc := StatusDocument(t);
    var record := doc.children[0];
    var status := record.children[0];
    var text := status.children[0];
    var p1 := [] + [record.name];
    var p2 := p1 + [status.name];
    assert p1 == [RecordTag];
    assert p2 == [RecordTag, StatusTag];
    assert Calls(text, p2, 3) == [] by {
      assert ChildCalls(text, 0, p2, 4) == [];
    }
    assert ChildCalls(status, 0, p2, 3) == [] by {
      assert ChildCalls(status, 1, p2, 3) == [];
    }
    var cStatus := [Handle(Visit(status, p2, status.attributes, 2))];
    assert Calls(status, p1, 2) == cStatus;
    assert ChildCalls(record, 0, p1, 2) == cStatus by {
      assert ChildCalls(record, 1, p1, 2) == [];
    }
    var cs := [Handle(Visit(record, p1, record.attributes, 1))] + cStatus;
    assert Calls(record, [], 1) == cs;
    assert ChildCalls(doc, 0, [], 1) == cs by {
      assert ChildCalls(doc, 1, [], 1) == [];
    }
  }

  /**
   * Walking that document into any record sets the status to `t`: the
   * document has the shape `StatusCallsInWalk` asks for, the record
   * element's call leaves the status alone and the `RecordStatus` call sets it.
   */
  lemma StatusDocumentSetsStatus(rec: ClinVarRecord, t: string)
    ensures !StatusDocument(t).isElement && LeavesBelow(StatusDocument(t))
    ensures var cs := Calls(StatusDocument(t), [], 0);
      |cs| == 2 && cs[0].Handle? && cs[1].Handle?
      && !SetsStatus(cs[0].visit.node, cs[0].visit.depth)
      && SetsStatus(cs[1].visit.node, cs[1].visit.depth)
      && Replay(rec, [cs[0].visit, cs[1].visit]).status == t
  {
    var doc := StatusDocument(t);
    var record := doc.children[0];
    var status := record.children[0];
    assert LeavesBelow(status.children[0]);
    assert LeavesBelow(status);
    assert LeavesBelow(record);
    StatusDocumentCalls(t);
    var cs := Calls(doc, [], 0);
    var visits := [cs[0].visit, cs[1].visit];
    assert StatusText(status) == t;
    ReplayLastStatusWins(rec, visits, 1);
  }
}
