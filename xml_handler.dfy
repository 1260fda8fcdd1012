/**
 * The handler interface's stock implementation, `BasicNodeWriter`: one line
 * of text per handled node, with the node's indentation, its path, its
 * trimmed text and its attributes.
 */
module XmlHandler {

  import opened Common
  import opened Text
  import opened XmlTree

  // ---------------------------------------------------------------------
  // The fields of a line
  // ---------------------------------------------------------------------

  /** `"\t".repeat(depth.saturating_sub(1))`: one tab per level below the first. */
  function Indent(depth: nat): (r: string)
    ensures |r| == Max(depth - 1, 0)
    ensures forall i :: 0 <= i < |r| ==> r[i] == '\t'
  {
    seq(if depth == 0 then 0 else depth - 1, _ => '\t')
  }

  /** The placeholder for a node without text. */
  const NoText: string := "No text"

  /**
   * The text field: the node's text, or the placeholder when it has none,
   * with surrounding whitespace cut off.
   */
  function TextField(text: Option<string>): (r: string)
    ensures text.None? ==> r == NoText
    ensures text.Some? ==> r == Trim(text.value)
    ensures r == [] || (!IsWhitespace(r[0]) && !IsWhitespace(r[|r| - 1]))
  {
    match text
    case None => NoTextIsTrimmed(); NoText
    case Some(t) => Trim(t)
  }

  /** The placeholder has no surrounding whitespace to trim. */
  lemma NoTextIsTrimmed()
    ensures Trim(NoText) == NoText
  {
    assert !IsWhitespace(NoText[0]) && !IsWhitespace(NoText[|NoText| - 1]);
    assert TrimStart(NoText) == NoText;
  }


  /** The placeholder for a node without attributes. */
  const NoAttributes: string := "No attributes"

  /** The values in `xs`, as a set. */
  ghost function Elements(xs: seq<string>): set<string> {
    set x | x in xs
  }

  predicate Distinct(xs: seq<string>) {
    forall i, j :: 0 <= i < j < |xs| ==> xs[i] != xs[j]
  }

  /**
   * `order` is an iteration order of the attribute map: it lists every key
   * exactly once.  The hash map's own order is not modelled; every
   * property below holds for any such order.
   */
  ghost predicate EnumeratesKeys(order: seq<string>, attrs: map<string, string>) {
    Distinct(order) && Elements(order) == attrs.Keys
  }

  /** `format!("{}={}", key, value)`. */
  function Pair(key: string, value: string): string {
    key + "=" + value
  }

  /** The `key=value` pieces in iteration order. */
  function Pieces(attrs: map<string, string>, order: seq<string>): (r: seq<string>)
    requires forall i :: 0 <= i < |order| ==> order[i] in attrs
    ensures |r| == |order|
    ensures forall i :: 0 <= i < |order| ==> r[i] == Pair(order[i], attrs[order[i]])
  {
    seq(|order|, i requires 0 <= i < |order| => Pair(order[i], attrs[order[i]]))
  }

  /** The attribute field: the placeholder for an empty map, else the pieces joined by spaces. */
  function AttributeField(attrs: map<string, string>, order: seq<string>): (r: string)
    requires EnumeratesKeys(order, attrs)
    ensures |attrs| == 0 ==> r == NoAttributes
  {
    assert forall i :: 0 <= i < |order| ==> order[i] in Elements(order);
    if |attrs| == 0 then NoAttributes else Join(Pieces(attrs, order), " ")
  }

  /** The line written for one handled node. */
  function Line(v: Visit, order: seq<string>): (r: string)
    requires EnumeratesKeys(order, v.attributes)
    ensures r != [] && r[|r| - 1] == '\n'
  {
    Indent(v.depth) + Join(v.path, ".") + " - " + TextField(v.node.text) + " - "
      + AttributeField(v.attributes, order) + "\n"
  }

  // ---------------------------------------------------------------------
  // The writer
  // ---------------------------------------------------------------------

  /** `BasicNodeWriter`: the text it has written so far stands for its writer. */
  class BasicNodeWriter {
    var written: string

    /** `BasicNodeWriter::new`. */
    constructor ()
      ensures written == []
    {
      written := [];
    }

    /** `handle`: writes the node's line. */
    method Handle(node: Node, currentPath: seq<string>, attributes: map<string, string>, depth: nat, order: seq<string>)
      returns (r: Result<()>)
      requires EnumeratesKeys(order, attributes)
      modifies this
      ensures r == Ok(())
      ensures written == old(written) + Line(Visit(node, currentPath, attributes, depth), order)
    {
      var indent := Indent(depth);
      var path := Join(currentPath, ".");
      var text := TextField(node.text);
      var attrs := AttributeField(attributes, order);
      written := written + (indent + path + " - " + text + " - " + attrs + "\n");
      return Ok(());
    }

    /** `end_record`: nothing to do. */
    method EndRecord() returns (r: Result<()>)
      ensures r == Ok(())
    {
      return Ok(());
    }
  }

  // ---------------------------------------------------------------------
  // Properties of the fields
  // ---------------------------------------------------------------------

  /** The number of tabs a string starts with. */
  function LeadingTabs(s: string): (n: nat)
    ensures n <= |s|
    ensures forall i :: 0 <= i < n ==> s[i] == '\t'
    ensures n < |s| ==> s[n] != '\t'
  {
    if s != [] && s[0] == '\t' then 1 + LeadingTabs(s[1..]) else 0
  }

  lemma {:induction false} LeadingTabsAfter(tabs: string, rest: string)
    requires forall i :: 0 <= i < |tabs| ==> tabs[i] == '\t'
    ensures LeadingTabs(tabs + rest) == |tabs| + LeadingTabs(rest)
  {
    if tabs != [] {
      assert (tabs + rest)[0] == '\t' && (tabs + rest)[1..] == tabs[1..] + rest;
      LeadingTabsAfter(tabs[1..], rest);
    } else {
      assert tabs + rest == rest;
    }
  }

  /** Text after the first non-tab character does not change the count. */
  lemma LeadingTabsPrefix(s: string, more: string)
    requires LeadingTabs(s) < |s|
    ensures LeadingTabs(s + more) == LeadingTabs(s)
  {
    var n := LeadingTabs(s);
    assert (s + more)[n] == s[n];
  }

  /** The root element (depth 1) and the document level (depth 0) are both unindented. */
  lemma IndentSaturates()
    ensures Indent(0) == Indent(1) == []
    ensures forall d: nat :: d >= 1 ==> |Indent(d)| == d - 1
  {
  }

  /** An iteration order lists exactly as many keys as the map has. */
  lemma {:induction false} DistinctElements(xs: seq<string>)
    requires Distinct(xs)
    ensures |Elements(xs)| == |xs|
  {
    if xs != [] {
      DistinctElements(xs[1..]);
      assert Elements(xs) == {xs[0]} + Elements(xs[1..]);
      assert xs[0] !in Elements(xs[1..]);
    }
  }

  lemma OrderLength(order: seq<string>, attrs: map<string, string>)
    requires EnumeratesKeys(order, attrs)
    ensures |order| == |attrs|
  {
    DistinctElements(order);
    assert |attrs| == |attrs.Keys|;
  }

  /**
   * The pieces do not depend on the iteration order: as a set they are
   * the map's `key=value` pairs, one piece per key.
   */
  lemma PiecesAreThePairs(attrs: map<string, string>, order: seq<string>)
    requires EnumeratesKeys(order, attrs)
    ensures assert forall i :: 0 <= i < |order| ==> order[i] in Elements(order);
      && |Pieces(attrs, order)| == |attrs|
      && Elements(Pieces(attrs, order)) == set k | k in attrs :: Pair(k, attrs[k])
  {
    assert forall i :: 0 <= i < |order| ==> order[i] in Elements(order);
    OrderLength(order, attrs);
    var ps := Pieces(attrs, order);
    forall p | p in Elements(ps)
      ensures p in set k | k in attrs :: Pair(k, attrs[k])
    {
      var i :| 0 <= i < |ps| && ps[i] == p;
      assert order[i] in attrs;
    }
    forall k | k in attrs
      ensures Pair(k, attrs[k]) in Elements(ps)
    {
      assert k in Elements(order);
      var i :| 0 <= i < |order| && order[i] == k;
      assert ps[i] == Pair(k, attrs[k]);
    }
  }

  /** The placeholder appears exactly when there are no attributes: every real field holds an `=`. */
  lemma AttributeFieldEmpty(attrs: map<string, string>, order: seq<string>)
    requires EnumeratesKeys(order, attrs)
    ensures AttributeField(attrs, order) == NoAttributes <==> |attrs| == 0
  {
    if |attrs| > 0 {
      OrderLength(order, attrs);
      assert order[0] in Elements(order);
      var ps := Pieces(attrs, order);
      var f := AttributeField(attrs, order);
      assert f[..|ps[0]|] == ps[0] == order[0] + "=" + attrs[order[0]];
      assert f[|order[0]|] == '=';
      assert '=' !in NoAttributes;
    }
  }

  /**
   * When keys and values hold no space and keys hold no `=`, the field
   * gives the attributes back: splitting on spaces yields one piece per
   * key, in iteration order, and each piece splits at its first `=` into
   * the key and its value.
   */
  lemma AttributeFieldParses(attrs: map<string, string>, order: seq<string>)
    requires EnumeratesKeys(order, attrs) && |attrs| > 0
    requires forall k :: k in attrs ==> ' ' !in k && ' ' !in attrs[k] && '=' !in k
    ensures var parts := Split(AttributeField(attrs, order), ' ');
      && |parts| == |order|
      && forall i :: 0 <= i < |parts| ==> SplitOnce(parts[i], '=') == Some((order[i], attrs[order[i]]))
  {
    assert forall i :: 0 <= i < |order| ==> order[i] in Elements(order);
    OrderLength(order, attrs);
    var ps := Pieces(attrs, order);
    forall i | 0 <= i < |ps|
      ensures ' ' !in ps[i]
      ensures SplitOnce(ps[i], '=') == Some((order[i], attrs[order[i]]))
    {
      var k := order[i];
      assert ps[i] == k + ['='] + attrs[k];
      SplitOnceAt(k, '=', attrs[k]);
    }
    SplitJoin(ps, ' ');
  }

  // ---------------------------------------------------------------------
  // Properties of a line
  // ---------------------------------------------------------------------

  /** The path field splits back into the path when no name holds a dot. */
  lemma PathFieldParses(path: seq<string>)
    requires |path| >= 1
    requires forall k :: 0 <= k < |path| ==> '.' !in path[k]
    ensures Split(Join(path, "."), '.') == path
  {
    SplitJoin(path, '.');
  }

  /** A character the text lacks, and the placeholder too, is not in the text field. */
  lemma TextFieldAvoids(text: Option<string>, c: char)
    requires c !in NoText
    requires text.Some? ==> c !in text.value
    ensures c !in TextField(text)
  {
    var raw := match text case None => NoText case Some(t) => t;
    TrimAvoids(raw, c);
  }

  /** A character in no key, no value and neither separator nor placeholder is not in the attribute field. */
  lemma AttributeFieldAvoids(attrs: map<string, string>, order: seq<string>, c: char)
    requires EnumeratesKeys(order, attrs)
    requires c != ' ' && c != '=' && c !in NoAttributes
    requires forall k :: k in attrs ==> c !in k && c !in attrs[k]
    ensures c !in AttributeField(attrs, order)
  {
    if |attrs| > 0 {
      assert forall i :: 0 <= i < |order| ==> order[i] in Elements(order);
      var ps := Pieces(attrs, order);
      forall i | 0 <= i < |ps| ensures c !in ps[i] {
        assert ps[i] == order[i] + "=" + attrs[order[i]];
      }
      JoinAvoids(ps, " ", c);
    }
  }

  /**
   * A line is one line: it ends in a newline and holds no other, when the
   * path's names, the text and the attributes hold none.
   */
  lemma LineIsOneLine(v: Visit, order: seq<string>)
    requires EnumeratesKeys(order, v.attributes)
    requires forall k :: 0 <= k < |v.path| ==> '\n' !in v.path[k]
    requires v.node.text.Some? ==> '\n' !in v.node.text.value
    requires forall k :: k in v.attributes ==> '\n' !in k && '\n' !in v.attributes[k]
    ensures var line := Line(v, order);
      line != [] && line[|line| - 1] == '\n' && '\n' !in line[..|line| - 1]
  {
    var line := Line(v, order);
    var body := Indent(v.depth) + Join(v.path, ".") + " - " + TextField(v.node.text) + " - "
      + AttributeField(v.attributes, order);
    assert '\n' !in body by {
      assert '\n' !in Indent(v.depth);
      JoinAvoids(v.path, ".", '\n');
      TextFieldAvoids(v.node.text, '\n');
      AttributeFieldAvoids(v.attributes, order, '\n');
    }
    assert line == body + "\n";
    assert line[..|line| - 1] == body;
  }

  /**
   * The depth can be read back from the line: it starts with exactly
   * `depth - 1` tabs (none at depth 0 or 1), when the path's names hold no
   * tab.
   */
  lemma LineIndentation(v: Visit, order: seq<string>)
    requires EnumeratesKeys(order, v.attributes)
    requires forall k :: 0 <= k < |v.path| ==> '\t' !in v.path[k]
    ensures LeadingTabs(Line(v, order)) == Max(v.depth - 1, 0)
  {
    var indent := Indent(v.depth);
    var path := Join(v.path, ".");
    JoinAvoids(v.path, ".", '\t');
    var head := indent + path + " - ";
    ConcatAssoc(indent, path, " - ");
    LeadingTabsAfter(indent, path + " - ");
    assert LeadingTabs(path + " - ") == 0 by {
      if path != [] {
        assert (path + " - ")[0] == path[0];
      } else {
        assert path + " - " == " - ";
      }
    }
    var text := head + TextField(v.node.text);
    LeadingTabsPrefix(head, TextField(v.node.text));
    LeadingTabsPrefix(text, " - ");
    LeadingTabsPrefix(text + " - ", AttributeField(v.attributes, order));
    LeadingTabsPrefix(text + " - " + AttributeField(v.attributes, order), "\n");
  }

}
