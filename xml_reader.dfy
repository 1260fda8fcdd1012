/**
 * The record reader: the segmenter that cuts one `ClinVarSet` record out of
 * the event stream, the pre-order walk over a parsed record that calls the
 * handler, and the driver loop that ties them together.
 */
module XmlReader {

  import opened Common
  import opened XmlTree

  /** The record-boundary element. */
  const RecordTag: string := "ClinVarSet"

  // ---------------------------------------------------------------------
  // Segmenter specification
  // ---------------------------------------------------------------------

  /** What the segmenter finds in the rest of the stream after a start tag. */
  datatype Segment =
    | Closed(body: seq<Event>, rest: seq<Event>)  // events up to and including the matching end tag, and what follows
    | Truncated                                   // end of stream first
    | ReadFailed                                  // the tokenizer failed first

  /** How an event moves the nesting counter of element `name`. */
  function Weight(e: Event, name: string): int
  {
    match e
    case Start(n) => if n == name then 1 else 0
    case End(n) => if n == name then -1 else 0
    case _ => 0
  }

  /** Start tags of `name` minus end tags of `name`. */
  function Balance(es: seq<Event>, name: string): int
  {
    if es == [] then 0 else Weight(es[0], name) + Balance(es[1..], name)
  }

  /** Events that stop the segmenter whatever the counter is. */
  predicate Halts(e: Event) {
    e == Eof || e == Malformed
  }

  /**
   * The segmenter's loop, from a counter value `depth`: every event is kept;
   * a same-name start raises the counter, a same-name end lowers it, or ends
   * the segment when the counter is 0.
   */
  function SegmentFrom(s: seq<Event>, name: string, depth: nat): (r: Segment)
    ensures r.Closed? ==> s == r.body + r.rest && r.body != []
  {
    if s == [] then Truncated
    else match s[0]
      case Eof => Truncated
      case Malformed => ReadFailed
      case End(n) =>
        if n == name && depth == 0 then Closed([s[0]], s[1..])
        else Extend(s[0], SegmentFrom(s[1..], name, if n == name then depth - 1 else depth))
      case Start(n) =>
        Extend(s[0], SegmentFrom(s[1..], name, if n == name then depth + 1 else depth))
      case Other =>
        Extend(s[0], SegmentFrom(s[1..], name, depth))
  }

  function Extend(e: Event, r: Segment): (r': Segment)
    ensures r'.Closed? <==> r.Closed?
    ensures r.Closed? ==> r'.body == [e] + r.body && r'.rest == r.rest
    ensures !r.Closed? ==> r' == r
  {
    match r
    case Closed(b, rest) => Closed([e] + b, rest)
    case _ => r
  }

  /**
   * Independent description of a segment: the events after the start tag
   * that bring the counter from `depth` to -1 for the first time, with no
   * end of stream or tokenizer error among them.
   */
  ghost predicate IsSegment(body: seq<Event>, name: string, depth: nat) {
    && depth + Balance(body, name) == -1
    && (forall j :: 0 <= j < |body| ==> depth + Balance(body[..j], name) >= 0)
    && (forall j :: 0 <= j < |body| ==> !Halts(body[j]))
  }

  /** A segment extended at the front by an event that keeps the counter non-negative. */
  lemma SegmentCons(e: Event, body: seq<Event>, name: string, depth: nat)
    requires !Halts(e) && depth + Weight(e, name) >= 0
    requires IsSegment(body, name, depth + Weight(e, name))
    ensures IsSegment([e] + body, name, depth)
  {
    var d' := depth + Weight(e, name);
    var full := [e] + body;
    assert full[0] == e && full[1..] == body;
    forall j | 0 <= j < |full|
      ensures depth + Balance(full[..j], name) >= 0
    {
      if j > 0 {
        assert full[..j][0] == e && full[..j][1..] == body[..j - 1];
      }
    }
  }

  /** What the segmenter returns is a segment, followed by the rest of the stream. */
  lemma {:induction false} SegmentSound(s: seq<Event>, name: string, depth: nat)
    requires SegmentFrom(s, name, depth).Closed?
    ensures var r := SegmentFrom(s, name, depth);
      && s == r.body + r.rest
      && IsSegment(r.body, name, depth)
      && r.body[|r.body| - 1] == End(name)
  {
    SegmentHead(s, name, depth);
    var e := s[0];
    var r := SegmentFrom(s, name, depth);
    if e == End(name) && depth == 0 {
      SegmentClose(s, name);
      assert r.body[..0] == [];
    } else {
      var d' := depth + Weight(e, name);
      SegmentStep(s, name, depth);
      SegmentSound(s[1..], name, d');
      SegmentCons(e, SegmentFrom(s[1..], name, d').body, name, depth);
    }
  }

  /** A segment is not empty; a one-event segment is the closing tag at counter 0. */
  lemma SegmentFirst(body: seq<Event>, name: string, depth: nat)
    requires IsSegment(body, name, depth)
    ensures body != [] && !Halts(body[0])
    ensures |body| == 1 <==> (body[0] == End(name) && depth == 0)
  {
    assert Balance([], name) == 0;
    assert body[..1] == [body[0]] && body[..1][1..] == [];
    if |body| == 1 {
      assert Balance(body, name) == Weight(body[0], name);
    } else {
      assert depth + Balance(body[..1], name) >= 0;
    }
  }

  /** What follows the first event of a longer segment is a segment from the moved counter. */
  lemma SegmentRest(body: seq<Event>, name: string, depth: nat)
    requires IsSegment(body, name, depth) && |body| > 1
    ensures depth + Weight(body[0], name) >= 0
    ensures IsSegment(body[1..], name, depth + Weight(body[0], name))
  {
    var e := body[0];
    var d' := depth + Weight(e, name);
    assert body[..1] == [e] && body[..1][1..] == [];
    assert d' == depth + Balance(body[..1], name);
    forall j | 0 <= j < |body[1..]|
      ensures d' + Balance(body[1..][..j], name) >= 0
    {
      assert body[..j + 1][0] == e && body[..j + 1][1..] == body[1..][..j];
    }
    forall j | 0 <= j < |body[1..]|
      ensures !Halts(body[1..][j])
    {
      assert body[1..][j] == body[j + 1];
    }
  }

  /** Every segment at the front of the stream is what the segmenter returns. */
  lemma {:induction false} SegmentComplete(s: seq<Event>, body: seq<Event>, rest: seq<Event>, name: string, depth: nat)
    requires s == body + rest && IsSegment(body, name, depth)
    ensures SegmentFrom(s, name, depth) == Closed(body, rest)
  {
    SegmentFirst(body, name, depth);
    var e := body[0];
    assert s[0] == e && s[1..] == body[1..] + rest;
    if |body| == 1 {
      SegmentClose(s, name);
    } else {
      var d' := depth + Weight(e, name);
      SegmentRest(body, name, depth);
      SegmentStep(s, name, depth);
      SegmentComplete(s[1..], body[1..], rest, name, d');
      assert [e] + body[1..] == body;
    }
  }

  /**
   * End of stream (or the end of the events) before any segment closes makes
   * the segmenter report truncation, never a buffer.
   */
  lemma {:induction false} SegmentTruncated(pre: seq<Event>, tail: seq<Event>, name: string, depth: nat)
    requires tail == [] || tail[0] == Eof
    requires forall j :: 0 <= j < |pre| ==> !Halts(pre[j])
    requires forall k :: 0 <= k <= |pre| ==> !IsSegment(pre[..k], name, depth)
    ensures SegmentFrom(pre + tail, name, depth) == Truncated
  {
    if pre == [] {
      assert pre + tail == tail;
    } else {
      var e := pre[0];
      var s := pre + tail;
      assert s[0] == e && s[1..] == pre[1..] + tail;
      if e == End(name) && depth == 0 {
        assert pre[..1] == [e] && pre[..1][..0] == [] && pre[..1][1..] == [];
        assert Balance(pre[..1][..0], name) == 0;
        assert Balance(pre[..1], name) == -1;
        assert IsSegment(pre[..1], name, depth);
        assert false;
      } else {
        var d' := depth + Weight(e, name);
        assert d' >= 0;
        forall k | 0 <= k <= |pre[1..]|
          ensures !IsSegment(pre[1..][..k], name, d')
        {
          if IsSegment(pre[1..][..k], name, d') {
            assert [e] + pre[1..][..k] == pre[..k + 1];
            SegmentCons(e, pre[1..][..k], name, depth);
          }
        }
        SegmentStep(s, name, depth);
        SegmentTruncated(pre[1..], tail, name, d');
      }
    }
  }

  /**
   * The buffer the segmenter hands on (the start tag, then the segment) holds
   * as many start tags of the record's element as end tags, and every proper
   * non-empty prefix of it has one more start than ends: the first tag is
   * closed by the last one and by no earlier one.
   */
  lemma BufferBalanced(body: seq<Event>, name: string)
    requires IsSegment(body, name, 0)
    ensures var full := [Start(name)] + body;
      && Balance(full, name) == 0
      && forall j :: 1 <= j < |full| ==> Balance(full[..j], name) >= 1
  {
    var full := [Start(name)] + body;
    assert full[1..] == body;
    forall j | 1 <= j < |full|
      ensures Balance(full[..j], name) >= 1
    {
      assert full[..j][0] == Start(name) && full[..j][1..] == body[..j - 1];
    }
  }

  /** The value `ReadToEndIntoBuffer` returns. */
  datatype SegmentResult =
    | Buffer(events: seq<Event>)  // the record, start tag first
    | TruncatedInput              // the run panics
    | TokenizerError              // the tokenizer's error, propagated

  /** The segmenter's outcome for a start tag of `name` followed by `s`. */
  function SegmentResultOf(s: seq<Event>, name: string): SegmentResult
  {
    match SegmentFrom(s, name, 0)
    case Closed(body, _) => Buffer([Start(name)] + body)
    case Truncated => TruncatedInput
    case ReadFailed => TokenizerError
  }

  // ---------------------------------------------------------------------
  // The event cursor and the segmenter
  // ---------------------------------------------------------------------

  /** The pull parser: the stream's events and how many have been read. */
  class EventReader {
    const events: seq<Event>
    var pos: nat

    ghost predicate Valid()
      reads this
    {
      pos <= |events|
    }

    /** The events not yet read. */
    function Remaining(): seq<Event>
      reads this
      requires Valid()
    {
      events[pos..]
    }

    constructor (events: seq<Event>)
      ensures Valid() && this.events == events && Remaining() == events
    {
      this.events := events;
      pos := 0;
    }

    /** `read_event_into`: the next event; past the last one, `Eof` without moving. */
    method ReadEvent() returns (e: Event)
      requires Valid()
      modifies this
      ensures Valid()
      ensures old(Remaining()) == [] ==> e == Eof && Remaining() == []
      ensures old(Remaining()) != [] ==> e == old(Remaining())[0] && Remaining() == old(Remaining())[1..]
    {
      if pos < |events| {
        e := events[pos];
        pos := pos + 1;
      } else {
        e := Eof;
      }
    }
  }

  /**
   * `read_to_end_into_buffer`: reads on from just after the start tag of
   * `name` and returns that tag followed by every event read, up to and
   * including the end tag that closes it.
   */
  method ReadToEndIntoBuffer(reader: EventReader, name: string) returns (r: SegmentResult)
    requires reader.Valid()
    modifies reader
    ensures reader.Valid()
    ensures r == SegmentResultOf(old(reader.Remaining()), name)
    ensures SegmentFrom(old(reader.Remaining()), name, 0).Closed? ==>
      reader.Remaining() == SegmentFrom(old(reader.Remaining()), name, 0).rest
  {
    ghost var s0 := reader.Remaining();
    ghost var body: seq<Event> := [];
    var depth: nat := 0;
    var output := [Start(name)];
    while true
      invariant reader.Valid()
      invariant output == [Start(name)] + body
      invariant SegmentFrom(s0, name, 0) == ExtendBy(body, SegmentFrom(reader.Remaining(), name, depth))
      decreases |reader.Remaining()|
    {
      ghost var s := reader.Remaining();
      var event := reader.ReadEvent();
      output := output + [event];
      ConcatAssoc([Start(name)], body, [event]);
      match event {
        case Eof =>
          return TruncatedInput;
        case Malformed =>
          return TokenizerError;
        case End(n) =>
          if n == name && depth == 0 {
            ExtendByStep(body, event, Closed([], s[1..]));
            body := body + [event];
            return Buffer(output);
          }
        case _ =>
      }
      var next: nat := depth + Weight(event, name);
      SegmentStep(s, name, depth);
      ExtendByStep(body, event, SegmentFrom(reader.Remaining(), name, next));
      body := body + [event];
      depth := next;
    }
  }

  /** One turn of the segmenter's loop on an event that neither stops nor closes. */
  lemma SegmentStep(s: seq<Event>, name: string, depth: nat)
    requires s != [] && !Halts(s[0]) && !(s[0] == End(name) && depth == 0)
    ensures depth + Weight(s[0], name) >= 0
    ensures SegmentFrom(s, name, depth) == Extend(s[0], SegmentFrom(s[1..], name, depth + Weight(s[0], name)))
  {
  }

  /** The segmenter closes at once on an end tag of `name` with the counter at 0. */
  lemma SegmentClose(s: seq<Event>, name: string)
    requires s != [] && s[0] == End(name)
    ensures SegmentFrom(s, name, 0) == Closed([s[0]], s[1..])
  {
  }

  /** A segment found means the stream did not stop at its first event. */
  lemma SegmentHead(s: seq<Event>, name: string, depth: nat)
    requires SegmentFrom(s, name, depth).Closed?
    ensures s != [] && !Halts(s[0])
  {
  }

  function ExtendBy(prefix: seq<Event>, r: Segment): (r': Segment)
    ensures !r.Closed? ==> r' == r
  {
    match r
    case Closed(b, rest) => Closed(prefix + b, rest)
    case _ => r
  }

  lemma ExtendByStep(prefix: seq<Event>, e: Event, r: Segment)
    ensures ExtendBy(prefix, Extend(e, r)) == ExtendBy(prefix + [e], r)
  {
    if r.Closed? {
      ConcatAssoc(prefix, [e], r.body);
    }
  }

  // ---------------------------------------------------------------------
  // The walk over a parsed record: specification
  // ---------------------------------------------------------------------

  /**
   * The handler calls of `note_flatten_treat` on `n`, entered with the path
   * stack holding `path` and with `depth`: an element is pushed onto the
   * path and handled, then its children are walked one level deeper; any
   * other node is not handled, but its children are still walked.
   */
  function Calls(n: Node, path: seq<string>, depth: nat): seq<HandlerCall>
    decreases n, 1
  {
    if n.isElement then
      var p := path + [n.name];
      [Handle(Visit(n, p, n.attributes, depth))] + ChildCalls(n, 0, p, depth + 1)
    else
      ChildCalls(n, 0, path, depth + 1)
  }

  /** The calls for the children of `n` from the `i`-th on, in document order. */
  function ChildCalls(n: Node, i: nat, path: seq<string>, depth: nat): seq<HandlerCall>
    requires i <= |n.children|
    decreases n, 0, |n.children| - i
  {
    if i == |n.children| then []
    else Calls(n.children[i], path, depth) + ChildCalls(n, i + 1, path, depth)
  }

  /** An address: the child indices that lead from `n` to a node below it. */
  ghost predicate ValidAddress(n: Node, a: seq<nat>)
    decreases a
  {
    a == [] || (a[0] < |n.children| && ValidAddress(n.children[a[0]], a[1..]))
  }

  /** The node at address `a`. */
  ghost function At(n: Node, a: seq<nat>): Node
    requires ValidAddress(n, a)
    decreases a
  {
    if a == [] then n else At(n.children[a[0]], a[1..])
  }

  /** The names of the elements from `n` down to the node at `a`, both included. */
  ghost function NamesAlong(n: Node, a: seq<nat>): seq<string>
    requires ValidAddress(n, a)
    decreases a
  {
    (if n.isElement then [n.name] else []) + (if a == [] then [] else NamesAlong(n.children[a[0]], a[1..]))
  }

  /**
   * The visit the walk owes the node at `a`: its path is the entry path and
   * the names of its element ancestors and itself; its depth is the entry
   * depth plus the number of steps down to it.
   */
  ghost function VisitAt(n: Node, path: seq<string>, depth: nat, a: seq<nat>): Visit
    requires ValidAddress(n, a)
  {
    Visit(At(n, a), path + NamesAlong(n, a), At(n, a).attributes, depth + |a|)
  }

  /** The addresses of the element nodes of `n`, in pre-order. */
  ghost function Preorder(n: Node): seq<seq<nat>>
    decreases n, 1
  {
    (if n.isElement then [[]] else []) + ChildPreorder(n, 0)
  }

  ghost function ChildPreorder(n: Node, i: nat): seq<seq<nat>>
    requires i <= |n.children|
    decreases n, 0, |n.children| - i
  {
    if i == |n.children| then []
    else Under(i, Preorder(n.children[i])) + ChildPreorder(n, i + 1)
  }

  /** The addresses `addrs`, seen from the parent whose `i`-th child they start at. */
  ghost function Under(i: nat, addrs: seq<seq<nat>>): (r: seq<seq<nat>>)
    ensures |r| == |addrs| && forall k :: 0 <= k < |addrs| ==> r[k] == [i] + addrs[k]
  {
    seq(|addrs|, k requires 0 <= k < |addrs| => [i] + addrs[k])
  }

  /** Pre-order on addresses: an ancestor comes before its descendants, an earlier sibling's subtree before a later one's. */
  ghost predicate Before(a: seq<nat>, b: seq<nat>)
    decreases |a|
  {
    b != [] && (a == [] || a[0] < b[0] || (a[0] == b[0] && Before(a[1..], b[1..])))
  }

  ghost predicate StrictlyOrdered(addrs: seq<seq<nat>>) {
    forall i, j :: 0 <= i < j < |addrs| ==> Before(addrs[i], addrs[j])
  }

  /** `calls` are the handler calls for the addresses `addrs`, one for one and in that order. */
  ghost predicate CallsFor(calls: seq<HandlerCall>, n: Node, path: seq<string>, depth: nat, addrs: seq<seq<nat>>) {
    && |calls| == |addrs|
    && forall k :: 0 <= k < |addrs| ==>
         ValidAddress(n, addrs[k]) && calls[k] == Handle(VisitAt(n, path, depth, addrs[k]))
  }

  /** The entry path of the children of `n`. */
  function InnerPath(n: Node, path: seq<string>): seq<string> {
    if n.isElement then path + [n.name] else path
  }

  // ---------------------------------------------------------------------
  // The walk over a parsed record: properties
  // ---------------------------------------------------------------------

  /** A step down to child `i` of `n`, seen from `n`. */
  lemma VisitAtChild(n: Node, path: seq<string>, depth: nat, i: nat, a: seq<nat>)
    requires i < |n.children| && ValidAddress(n.children[i], a)
    ensures ValidAddress(n, [i] + a)
    ensures VisitAt(n, path, depth, [i] + a) == VisitAt(n.children[i], InnerPath(n, path), depth + 1, a)
  {
    var b := [i] + a;
    var c := n.children[i];
    assert b[0] == i && b[1..] == a;
    assert ValidAddress(n, b);
    assert At(n, b) == At(c, a);
    var own := if n.isElement then [n.name] else [];
    assert NamesAlong(n, b) == own + NamesAlong(c, a);
    ConcatAssoc(path, own, NamesAlong(c, a));
    assert path + own == InnerPath(n, path);
  }

  /**
   * The walk handles exactly the element nodes, in pre-order, and each with
   * the visit it is owed (its ancestor path and its depth).
   */
  lemma {:induction false} CallsArePreorder(n: Node, path: seq<string>, depth: nat)
    ensures CallsFor(Calls(n, path, depth), n, path, depth, Preorder(n))
    decreases n, 1
  {
    ChildCallsArePreorder(n, 0, path, depth);
    var cs := ChildCalls(n, 0, InnerPath(n, path), depth + 1);
    var addrs := ChildPreorder(n, 0);
    if n.isElement {
      assert ValidAddress(n, []) && VisitAt(n, path, depth, []) == Visit(n, path + [n.name], n.attributes, depth);
      var calls := Calls(n, path, depth);
      var pre := Preorder(n);
      assert calls == [calls[0]] + cs && pre == [[]] + addrs;
      forall k | 0 <= k < |pre|
        ensures ValidAddress(n, pre[k]) && calls[k] == Handle(VisitAt(n, path, depth, pre[k]))
      {
        if k > 0 {
          assert pre[k] == addrs[k - 1] && calls[k] == cs[k - 1];
        }
      }
    }
  }

  lemma {:induction false} ChildCallsArePreorder(n: Node, i: nat, path: seq<string>, depth: nat)
    requires i <= |n.children|
    ensures CallsFor(ChildCalls(n, i, InnerPath(n, path), depth + 1), n, path, depth, ChildPreorder(n, i))
    decreases n, 0, |n.children| - i
  {
    if i < |n.children| {
      var c := n.children[i];
      var inner := InnerPath(n, path);
      CallsArePreorder(c, inner, depth + 1);
      ChildCallsArePreorder(n, i + 1, path, depth);
      var head := Calls(c, inner, depth + 1);
      var tail := ChildCalls(n, i + 1, inner, depth + 1);
      var hs := Under(i, Preorder(c));
      var ts := ChildPreorder(n, i + 1);
      var calls := head + tail;
      var addrs := hs + ts;
      forall k | 0 <= k < |addrs|
        ensures ValidAddress(n, addrs[k]) && calls[k] == Handle(VisitAt(n, path, depth, addrs[k]))
      {
        if k < |hs| {
          VisitAtChild(n, path, depth, i, Preorder(c)[k]);
        } else {
          assert addrs[k] == ts[k - |hs|] && calls[k] == tail[k - |hs|];
        }
      }
    }
  }

  /** Every address in the pre-order list is valid, leads to an element, and starts at a child index from `i` on. */
  lemma {:induction false} ChildPreorderRange(n: Node, i: nat)
    requires i <= |n.children|
    ensures forall k :: 0 <= k < |ChildPreorder(n, i)| ==>
      var a := ChildPreorder(n, i)[k]; a != [] && i <= a[0] < |n.children|
    decreases |n.children| - i
  {
    if i < |n.children| {
      ChildPreorderRange(n, i + 1);
    }
  }

  /** Exactly the element nodes have their address in the pre-order list. */
  lemma {:induction false} PreorderComplete(n: Node, a: seq<nat>)
    ensures a in Preorder(n) <==> ValidAddress(n, a) && At(n, a).isElement
    decreases n
  {
    if a == [] {
      ChildPreorderRange(n, 0);
    } else if a in Preorder(n) {
      ChildPreorderRange(n, 0);
      var i := a[0];
      assert a in ChildPreorder(n, 0);
      ChildPreorderMember(n, 0, a);
      PreorderComplete(n.children[i], a[1..]);
    } else if ValidAddress(n, a) && At(n, a).isElement {
      var i := a[0];
      PreorderComplete(n.children[i], a[1..]);
      assert a == [i] + a[1..];
      ChildPreorderHas(n, 0, i, a[1..]);
      assert false;
    }
  }

  /** An address in the children's list lies under one child and is that child's address extended. */
  lemma {:induction false} ChildPreorderMember(n: Node, i: nat, a: seq<nat>)
    requires i <= |n.children| && a in ChildPreorder(n, i)
    ensures a != [] && i <= a[0] < |n.children| && a[1..] in Preorder(n.children[a[0]])
    decreases |n.children| - i
  {
    var hs := Under(i, Preorder(n.children[i]));
    if a in hs {
      var k :| 0 <= k < |hs| && hs[k] == a;
      assert a[1..] == Preorder(n.children[i])[k];
    } else {
      ChildPreorderMember(n, i + 1, a);
    }
  }

  /** The address of an element under child `j` is in the children's list from any `i <= j`. */
  lemma {:induction false} ChildPreorderHas(n: Node, i: nat, j: nat, b: seq<nat>)
    requires i <= j < |n.children| && b in Preorder(n.children[j])
    ensures [j] + b in ChildPreorder(n, i)
    decreases |n.children| - i
  {
    if i == j {
      var k :| 0 <= k < |Preorder(n.children[j])| && Preorder(n.children[j])[k] == b;
      assert Under(j, Preorder(n.children[j]))[k] == [j] + b;
    } else {
      ChildPreorderHas(n, i + 1, j, b);
    }
  }

  lemma BeforeUnder(i: nat, a: seq<nat>, b: seq<nat>)
    requires Before(a, b)
    ensures Before([i] + a, [i] + b)
  {
    assert ([i] + a)[1..] == a && ([i] + b)[1..] == b;
  }

  /** The pre-order list is strictly ordered, so it lists every element once. */
  lemma {:induction false} PreorderOrdered(n: Node)
    ensures StrictlyOrdered(Preorder(n))
    decreases n, 1
  {
    ChildPreorderOrdered(n, 0);
    ChildPreorderRange(n, 0);
  }

  lemma {:induction false} ChildPreorderOrdered(n: Node, i: nat)
    requires i <= |n.children|
    ensures StrictlyOrdered(ChildPreorder(n, i))
    decreases n, 0, |n.children| - i
  {
    if i < |n.children| {
      var sub := Preorder(n.children[i]);
      PreorderOrdered(n.children[i]);
      ChildPreorderOrdered(n, i + 1);
      ChildPreorderRange(n, i + 1);
      var hs := Under(i, sub);
      var ts := ChildPreorder(n, i + 1);
      var all := hs + ts;
      forall p, q | 0 <= p < q < |all|
        ensures Before(all[p], all[q])
      {
        if q < |hs| {
          BeforeUnder(i, sub[p], sub[q]);
        } else if p >= |hs| {
          assert all[p] == ts[p - |hs|] && all[q] == ts[q - |hs|];
        } else {
          assert all[p][0] == i && all[q] == ts[q - |hs|];
        }
      }
    }
  }

  /** No address comes before itself. */
  lemma {:induction false} BeforeIrreflexive(a: seq<nat>)
    ensures !Before(a, a)
    decreases |a|
  {
    if a != [] {
      BeforeIrreflexive(a[1..]);
    }
  }

  /** No address is listed twice, so the walk visits each element once. */
  lemma PreorderDistinct(n: Node)
    ensures forall i, j :: 0 <= i < j < |Preorder(n)| ==> Preorder(n)[i] != Preorder(n)[j]
  {
    PreorderOrdered(n);
    var addrs := Preorder(n);
    forall i, j | 0 <= i < j < |addrs| ensures addrs[i] != addrs[j] {
      BeforeIrreflexive(addrs[i]);
    }
  }

  /**
   * Below `n`, only elements have children: text, comment and processing
   * instruction nodes are leaves, as the tree library builds them.
   */
  ghost predicate LeavesBelow(n: Node)
    decreases n
  {
    forall i :: 0 <= i < |n.children| ==>
      (n.children[i].isElement || n.children[i].children == []) && LeavesBelow(n.children[i])
  }

  /** The first step of an address that leads below `n` to an element goes to an element. */
  lemma FirstStepIsElement(n: Node, a: seq<nat>)
    requires a != [] && ValidAddress(n, a) && LeavesBelow(n) && At(n, a).isElement
    ensures n.children[a[0]].isElement
    ensures ValidAddress(n.children[a[0]], a[1..]) && At(n, a) == At(n.children[a[0]], a[1..])
    ensures NamesAlong(n, a) == (if n.isElement then [n.name] else []) + NamesAlong(n.children[a[0]], a[1..])
  {
    var c := n.children[a[0]];
    assert a[1..] != [] ==> c.children != [];
    assert a[1..] == [] ==> At(n, a) == c;
  }

  lemma {:induction false} NamesAlongLength(n: Node, a: seq<nat>)
    requires ValidAddress(n, a) && n.isElement && LeavesBelow(n) && At(n, a).isElement
    ensures |NamesAlong(n, a)| == |a| + 1
    ensures NamesAlong(n, a)[|a|] == At(n, a).name
    decreases a
  {
    if a != [] {
      FirstStepIsElement(n, a);
      NamesAlongLength(n.children[a[0]], a[1..]);
    }
  }

  /**
   * Walked from a non-element document root with an empty path and depth 0,
   * a tree in which only elements have children gives every handled node a
   * depth equal to the length of its path, and a path that ends in its own
   * name; every handled node is an element.
   */
  lemma DepthIsPathLength(root: Node, k: nat)
    requires !root.isElement && LeavesBelow(root)
    requires k < |Calls(root, [], 0)|
    ensures Calls(root, [], 0)[k].Handle?
    ensures var v := Calls(root, [], 0)[k].visit;
      && v.node.isElement
      && v.depth == |v.path| >= 1
      && v.path[|v.path| - 1] == v.node.name
  {
    CallsArePreorder(root, [], 0);
    var a := Preorder(root)[k];
    PreorderComplete(root, a);
    RootNamesAlong(root, a);
    assert [] + NamesAlong(root, a) == NamesAlong(root, a);
  }

  /** Below a non-element root, an element's names are one per step, ending in its own. */
  lemma RootNamesAlong(root: Node, a: seq<nat>)
    requires !root.isElement && LeavesBelow(root)
    requires ValidAddress(root, a) && At(root, a).isElement
    ensures |NamesAlong(root, a)| == |a| >= 1
    ensures NamesAlong(root, a)[|a| - 1] == At(root, a).name
  {
    assert a != [];
    FirstStepIsElement(root, a);
    NamesAlongLength(root.children[a[0]], a[1..]);
  }

  /** The walk never calls `end_record`. */
  lemma CallsOnlyHandle(n: Node, path: seq<string>, depth: nat)
    ensures forall k :: 0 <= k < |Calls(n, path, depth)| ==> Calls(n, path, depth)[k].Handle?
  {
    CallsArePreorder(n, path, depth);
  }

  // ---------------------------------------------------------------------
  // The walk over a parsed record: the imperative walk
  // ---------------------------------------------------------------------

  /** The `current_path` vector shared by the walk. */
  class PathStack {
    var names: seq<string>

    constructor ()
      ensures names == []
    {
      names := [];
    }

    /** `Vec::push`. */
    method Push(name: string)
      modifies this
      ensures names == old(names) + [name]
    {
      names := names + [name];
    }

    /** `Vec::pop`: the last name, removed; `None` on an empty stack. */
    method Pop() returns (top: Option<string>)
      modifies this
      ensures old(names) == [] ==> top == None && names == []
      ensures old(names) != [] ==> top == Some(old(names)[|old(names)| - 1]) && names == old(names)[..|old(names)| - 1]
    {
      if names == [] {
        top := None;
      } else {
        top := Some(names[|names| - 1]);
        names := names[..|names| - 1];
      }
    }
  }

  /**
   * The handler `read_xml` drives.  It stands for any `EventHandler`: it
   * keeps the calls it receives, and the concrete handlers' effects are
   * functions of that list.
   */
  class Recorder {
    var calls: seq<HandlerCall>

    constructor ()
      ensures calls == []
    {
      calls := [];
    }

    method Handle(v: Visit) returns (r: Result<()>)
      modifies this
      ensures calls == old(calls) + [HandlerCall.Handle(v)] && r == Ok(())
    {
      calls := calls + [HandlerCall.Handle(v)];
      r := Ok(());
    }
  }

  /**
   * `note_flatten_treat`: the pre-order walk.  It hands the handler exactly
   * the calls `Calls` lists, and leaves the path stack as it found it.
   */
  method NoteFlattenTreat(node: Node, currentPath: PathStack, handler: Recorder, depth: nat) returns (r: Result<()>)
    modifies currentPath, handler
    ensures currentPath.names == old(currentPath.names)
    ensures handler.calls == old(handler.calls) + Calls(node, old(currentPath.names), depth)
    ensures r == Ok(())
    decreases node
  {
    ghost var entry := currentPath.names;
    if node.isElement {
      currentPath.Push(node.name);
      var _ := handler.Handle(Visit(node, currentPath.names, node.attributes, depth));
      for i := 0 to |node.children|
        invariant currentPath.names == entry + [node.name]
        invariant handler.calls + ChildCalls(node, i, entry + [node.name], depth + 1)
          == old(handler.calls) + Calls(node, entry, depth)
      {
        var _ := NoteFlattenTreat(node.children[i], currentPath, handler, depth + 1);
      }
      var _ := currentPath.Pop();
    } else {
      for i := 0 to |node.children|
        invariant currentPath.names == entry
        invariant handler.calls + ChildCalls(node, i, entry, depth + 1)
          == old(handler.calls) + Calls(node, entry, depth)
      {
        var _ := NoteFlattenTreat(node.children[i], currentPath, handler, depth + 1);
      }
    }
    r := Ok(());
  }

  // ---------------------------------------------------------------------
  // The driver: specification
  // ---------------------------------------------------------------------

  /** How `read_xml` ends: it returns `Ok` or an error, or it panics. */
  datatype Outcome = Returned(result: Result<()>) | Panicked

  /**
   * What a start tag of the record element leads to: the record is cut out,
   * parsed and walked, or the run stops with an outcome.
   */
  datatype RecordStep = Walked(calls: seq<HandlerCall>, rest: seq<Event>) | Stopped(outcome: Outcome)

  /**
   * The record after a start tag of the record element, `s` being the
   * events that follow the tag: truncation panics, a tokenizer error is
   * returned, the buffer is handed to `parse` (UTF-8 decoding and the tree
   * library), whose error is returned, and the tree is walked from the
   * document root with an empty path and depth 0.
   */
  function RecordStepOf(s: seq<Event>, parse: seq<Event> -> Result<Node>): (r: RecordStep)
    ensures r.Walked? ==> |r.rest| < |s|
  {
    match SegmentFrom(s, RecordTag, 0)
    case Truncated => Stopped(Panicked)
    case ReadFailed => Stopped(Returned(Err(QuickXml)))
    case Closed(body, rest) =>
      match parse([Start(RecordTag)] + body)
      case Err(e) => Stopped(Returned(Err(e)))
      case Ok(root) => Walked(Calls(root, [], 0), rest)
  }

  /** A run of `read_xml`: how it ends, how many records it walked, and the handler calls it made. */
  datatype Run = Run(outcome: Outcome, count: nat, calls: seq<HandlerCall>)

  function Prepend(calls: seq<HandlerCall>, r: Run): Run {
    Run(r.outcome, r.count, calls + r.calls)
  }

  predicate LimitReached(limit: Option<nat>, count: nat) {
    limit.Some? && count >= limit.value
  }

  /**
   * One pass of the driver loop: the loop goes on with the calls made, the
   * events left and the new count, or the run ends.
   */
  datatype Turn = Next(calls: seq<HandlerCall>, rest: seq<Event>, count: nat) | Last(run: Run)

  /**
   * One pass of the driver loop on the events `s`, having walked `count`
   * records: end of stream ends the run and a tokenizer error panics; a
   * start tag of the record element leads to the record's step and, once
   * the record is walked, to one more in the count, after which the run
   * ends if the limit is reached; every other event is skipped.
   */
  function TurnOf(s: seq<Event>, limit: Option<nat>, parse: seq<Event> -> Result<Node>, count: nat): (t: Turn)
    ensures t.Next? ==> |t.rest| < |s|
  {
    if s == [] || s[0] == Eof then Last(Run(Returned(Ok(())), count, []))
    else if s[0] == Malformed then Last(Run(Panicked, count, []))
    else if s[0] != Start(RecordTag) then Next([], s[1..], count)
    else match RecordStepOf(s[1..], parse)
      case Stopped(outcome) => Last(Run(outcome, count, []))
      case Walked(calls, rest) =>
        if LimitReached(limit, count + 1) then Last(Run(Returned(Ok(())), count + 1, calls))
        else Next(calls, rest, count + 1)
  }

  /** The driver loop on the events `s`, pass after pass, from `count` records walked. */
  function RunFrom(s: seq<Event>, limit: Option<nat>, parse: seq<Event> -> Result<Node>, count: nat): Run
    decreases |s|
  {
    match TurnOf(s, limit, parse, count)
    case Last(run) => run
    case Next(calls, rest, next) => Prepend(calls, RunFrom(rest, limit, parse, next))
  }

  // ---------------------------------------------------------------------
  // The driver: properties
  // ---------------------------------------------------------------------

  /** What a walked record step is made of. */
  lemma RecordStepWalked(s: seq<Event>, parse: seq<Event> -> Result<Node>)
    requires RecordStepOf(s, parse).Walked?
    ensures SegmentFrom(s, RecordTag, 0).Closed?
    ensures parse([Start(RecordTag)] + SegmentFrom(s, RecordTag, 0).body).Ok?
    ensures RecordStepOf(s, parse).calls == Calls(parse([Start(RecordTag)] + SegmentFrom(s, RecordTag, 0).body).value, [], 0)
    ensures RecordStepOf(s, parse).rest == SegmentFrom(s, RecordTag, 0).rest
  {
  }

  /** The calls of a run: those of its first pass, then those of the rest. */
  lemma RunNext(s: seq<Event>, limit: Option<nat>, parse: seq<Event> -> Result<Node>, count: nat)
    requires TurnOf(s, limit, parse, count).Next?
    ensures var t := TurnOf(s, limit, parse, count);
      var later := RunFrom(t.rest, limit, parse, t.count).calls;
      && RunFrom(s, limit, parse, count).calls == t.calls + later
      && forall k :: |t.calls| <= k < |t.calls| + |later| ==> RunFrom(s, limit, parse, count).calls[k] == later[k - |t.calls|]
  {
    var t := TurnOf(s, limit, parse, count);
    var later := RunFrom(t.rest, limit, parse, t.count).calls;
    var all := RunFrom(s, limit, parse, count).calls;
    assert all == t.calls + later;
    forall k | |t.calls| <= k < |t.calls| + |later|
      ensures all[k] == later[k - |t.calls|]
    {
    }
  }

  /** A pass that ends the run is the whole rest of the run. */
  lemma RunLast(s: seq<Event>, limit: Option<nat>, parse: seq<Event> -> Result<Node>, count: nat)
    requires TurnOf(s, limit, parse, count).Last?
    ensures RunFrom(s, limit, parse, count) == TurnOf(s, limit, parse, count).run
  {
  }

  /** A pass that goes on puts its calls in front of the rest of the run. */
  lemma RunGoesOn(s0: seq<Event>, done: seq<HandlerCall>, s: seq<Event>, limit: Option<nat>, parse: seq<Event> -> Result<Node>, count: nat)
    requires RunFrom(s0, limit, parse, 0) == Prepend(done, RunFrom(s, limit, parse, count))
    requires TurnOf(s, limit, parse, count).Next?
    ensures var t := TurnOf(s, limit, parse, count);
      RunFrom(s0, limit, parse, 0) == Prepend(done + t.calls, RunFrom(t.rest, limit, parse, t.count))
  {
    var t := TurnOf(s, limit, parse, count);
    ConcatAssoc(done, t.calls, RunFrom(t.rest, limit, parse, t.count).calls);
  }

  /** `read_xml` only ever calls `handle`, never `end_record`. */
  lemma {:induction false} RunNeverEndsRecord(s: seq<Event>, limit: Option<nat>, parse: seq<Event> -> Result<Node>, count: nat)
    ensures var calls := RunFrom(s, limit, parse, count).calls;
      forall k :: 0 <= k < |calls| ==> calls[k].Handle?
    decreases |s|
  {
    var t := TurnOf(s, limit, parse, count);
    if s != [] && s[0] == Start(RecordTag) && RecordStepOf(s[1..], parse).Walked? {
      RecordStepWalked(s[1..], parse);
      var seg := SegmentFrom(s[1..], RecordTag, 0);
      CallsOnlyHandle(parse([Start(RecordTag)] + seg.body).value, [], 0);
    }
    if t.Next? {
      RunNext(s, limit, parse, count);
      RunNeverEndsRecord(t.rest, limit, parse, t.count);
    }
  }

  /**
   * With `Some(limit)` the run stops once the count reaches the limit: from
   * a count below the limit it walks at most `limit` records; the check
   * comes after a record, so at least that one record is walked.
   */
  lemma {:induction false} RunRespectsLimit(s: seq<Event>, limit: nat, parse: seq<Event> -> Result<Node>, count: nat)
    ensures var n := RunFrom(s, Some(limit), parse, count).count;
      count <= n <= Max(limit, count + 1)
    decreases |s|
  {
    var t := TurnOf(s, Some(limit), parse, count);
    if t.Next? {
      RunRespectsLimit(t.rest, limit, parse, t.count);
    }
  }

  /** Events other than record starts, end of stream and tokenizer errors are skipped. */
  lemma {:induction false} RunSkips(pre: seq<Event>, s: seq<Event>, limit: Option<nat>, parse: seq<Event> -> Result<Node>, count: nat)
    requires forall j :: 0 <= j < |pre| ==> !Halts(pre[j]) && pre[j] != Start(RecordTag)
    ensures RunFrom(pre + s, limit, parse, count) == RunFrom(s, limit, parse, count)
  {
    if pre != [] {
      assert (pre + s)[0] == pre[0] && (pre + s)[1..] == pre[1..] + s;
      RunSkips(pre[1..], s, limit, parse, count);
    } else {
      assert pre + s == s;
    }
  }

  /**
   * One record: a start tag of the record element followed by a segment is
   * parsed, walked from the root, and counted; the run then goes on after
   * the segment unless the limit is reached.
   */
  lemma RunRecord(body: seq<Event>, rest: seq<Event>, limit: Option<nat>, parse: seq<Event> -> Result<Node>, count: nat)
    requires IsSegment(body, RecordTag, 0)
    requires parse([Start(RecordTag)] + body).Ok?
    ensures var calls := Calls(parse([Start(RecordTag)] + body).value, [], 0);
      RunFrom([Start(RecordTag)] + body + rest, limit, parse, count) ==
        if LimitReached(limit, count + 1) then Run(Returned(Ok(())), count + 1, calls)
        else Prepend(calls, RunFrom(rest, limit, parse, count + 1))
  {
    var s := [Start(RecordTag)] + body + rest;
    assert s[0] == Start(RecordTag) && s[1..] == body + rest;
    SegmentComplete(s[1..], body, rest, RecordTag, 0);
  }

  /** A record that the stream ends inside makes the run panic. */
  lemma RunPanicsOnTruncatedRecord(pre: seq<Event>, tail: seq<Event>, limit: Option<nat>, parse: seq<Event> -> Result<Node>, count: nat)
    requires tail == [] || tail[0] == Eof
    requires forall j :: 0 <= j < |pre| ==> !Halts(pre[j])
    requires forall k :: 0 <= k <= |pre| ==> !IsSegment(pre[..k], RecordTag, 0)
    ensures RunFrom([Start(RecordTag)] + pre + tail, limit, parse, count).outcome == Panicked
  {
    var s := [Start(RecordTag)] + pre + tail;
    assert s[0] == Start(RecordTag) && s[1..] == pre + tail;
    SegmentTruncated(pre, tail, RecordTag, 0);
  }

  /** The tree library yields a non-element document root below which only elements have children. */
  ghost predicate ParsesToDocuments(parse: seq<Event> -> Result<Node>) {
    forall b :: parse(b).Ok? ==> !parse(b).value.isElement && LeavesBelow(parse(b).value)
  }

  /** Over a whole run, every handled node's depth is the length of its path. */
  lemma {:induction false} RunDepthIsPathLength(s: seq<Event>, limit: Option<nat>, parse: seq<Event> -> Result<Node>, count: nat)
    requires ParsesToDocuments(parse)
    ensures var calls := RunFrom(s, limit, parse, count).calls;
      forall k :: 0 <= k < |calls| ==> calls[k].Handle? && calls[k].visit.depth == |calls[k].visit.path|
    decreases |s|
  {
    var t := TurnOf(s, limit, parse, count);
    if s != [] && s[0] == Start(RecordTag) && RecordStepOf(s[1..], parse).Walked? {
      RecordStepWalked(s[1..], parse);
      var seg := SegmentFrom(s[1..], RecordTag, 0);
      var root := parse([Start(RecordTag)] + seg.body).value;
      var calls := Calls(root, [], 0);
      forall k | 0 <= k < |calls|
        ensures calls[k].Handle? && calls[k].visit.depth == |calls[k].visit.path|
      {
        DepthIsPathLength(root, k);
      }
    }
    if t.Next? {
      RunNext(s, limit, parse, count);
      RunDepthIsPathLength(t.rest, limit, parse, t.count);
    }
  }

  // ---------------------------------------------------------------------
  // The driver loop
  // ---------------------------------------------------------------------

  /**
   * The `ClinVarSet` arm of `read_xml`'s loop, up to the count: cuts the
   * record out, decodes and parses it, and walks it with a fresh path
   * stack.  `None` means the record was walked; otherwise the run ends with
   * the outcome given.
   */
  method ReadRecord(reader: EventReader, handler: Recorder, parse: seq<Event> -> Result<Node>) returns (stop: Option<Outcome>)
    requires reader.Valid()
    modifies reader, handler
    ensures reader.Valid()
    ensures stop.Some? <==> RecordStepOf(old(reader.Remaining()), parse).Stopped?
    ensures stop.Some? ==>
      stop.value == RecordStepOf(old(reader.Remaining()), parse).outcome && handler.calls == old(handler.calls)
    ensures stop.None? ==>
      && handler.calls == old(handler.calls) + RecordStepOf(old(reader.Remaining()), parse).calls
      && reader.Remaining() == RecordStepOf(old(reader.Remaining()), parse).rest
  {
    var elemBytes := ReadToEndIntoBuffer(reader, RecordTag);
    match elemBytes {
      case TruncatedInput =>
        return Some(Panicked);
      case TokenizerError =>
        return Some(Returned(Err(QuickXml)));
      case Buffer(bytes) =>
        match parse(bytes) {
          case Err(e) =>
            return Some(Returned(Err(e)));
          case Ok(doc) =>
            var currentPath := new PathStack();
            var _ := NoteFlattenTreat(doc, currentPath, handler, 0);
            return None;
        }
    }
  }

  /**
   * One pass of `read_xml`'s loop, having walked `count` records: reads an
   * event and acts on it.  `stop` is the outcome when the run ends here, and
   * `next` the count afterwards.
   */
  method ReadXmlTurn(reader: EventReader, handler: Recorder, limit: Option<nat>, parse: seq<Event> -> Result<Node>, count: nat)
    returns (stop: Option<Outcome>, next: nat)
    requires reader.Valid()
    modifies reader, handler
    ensures reader.Valid()
    ensures var t := TurnOf(old(reader.Remaining()), limit, parse, count);
      && (stop.Some? <==> t.Last?)
      && (t.Last? ==> stop.value == t.run.outcome && next == t.run.count && handler.calls == old(handler.calls) + t.run.calls)
      && (t.Next? ==> next == t.count && handler.calls == old(handler.calls) + t.calls && reader.Remaining() == t.rest)
  {
    ghost var s := reader.Remaining();
    next := count;
    var event := reader.ReadEvent();
    match event {
      case Eof =>
        return Some(Returned(Ok(()))), next;
      case Malformed =>
        return Some(Panicked), next;
      case Start(name) =>
        if name == RecordTag {
          stop := ReadRecord(reader, handler, parse);
          if stop.Some? {
            return stop, next;
          }
          next := next + 1;
          if limit.Some? && next >= limit.value {
            return Some(Returned(Ok(()))), next;
          }
        }
      case _ =>
    }
    return None, next;
  }

  /**
   * `read_xml`: reads events until end of stream; every start tag of the
   * record element is cut out, parsed and walked, and counted, and the loop
   * stops early once the count reaches `limit`.  `count` is the number of
   * records walked.
   */
  method ReadXml(reader: EventReader, handler: Recorder, limit: Option<nat>, parse: seq<Event> -> Result<Node>)
    returns (outcome: Outcome, ghost count: nat)
    requires reader.Valid()
    modifies reader, handler
    ensures var run := RunFrom(old(reader.Remaining()), limit, parse, 0);
      && outcome == run.outcome
      && count == run.count
      && handler.calls == old(handler.calls) + run.calls
  {
    var records: nat := 0;
    ghost var s0 := reader.Remaining();
    ghost var done: seq<HandlerCall> := [];
    while true
      invariant reader.Valid()
      invariant handler.calls == old(handler.calls) + done
      invariant RunFrom(s0, limit, parse, 0) == Prepend(done, RunFrom(reader.Remaining(), limit, parse, records))
      decreases |reader.Remaining()|
    {
      ghost var s := reader.Remaining();
      ghost var before := records;
      ghost var t := TurnOf(s, limit, parse, records);
      var stop;
      stop, records := ReadXmlTurn(reader, handler, limit, parse, records);
      if stop.Some? {
        RunLast(s, limit, parse, before);
        ConcatAssoc(old(handler.calls), done, t.run.calls);
        return stop.value, records;
      }
      RunGoesOn(s0, done, s, limit, parse, before);
      ConcatAssoc(old(handler.calls), done, t.calls);
      done := done + t.calls;
    }
  }
}
