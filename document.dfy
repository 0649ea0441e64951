/** The parsed page, as the extractors see it.

    The markup parser is not part of this model: a page is already a tree of
    elements and text, and `find_all` is a filter over its descendants in
    document order. */
module Document {

  /** A node of the parsed page: a run of text, or an element with its tag
      name, its attributes and its children in document order. */
  datatype Node =
    | Text(content: string)
    | Element(tag: string, attrs: map<string, string>, children: seq<Node>)

  /** The filter of a `find_all(tag, {attribute: value})` call. */
  datatype Marker = Marker(tag: string, attr: string, value: string)

  /** An element with the marker's tag whose attribute has the marker's value. */
  predicate Matches(n: Node, m: Marker) {
    n.Element? && n.tag == m.tag && m.attr in n.attrs && n.attrs[m.attr] == m.value
  }

  /** `.text`: every piece of text below the node, in document order. */
  function TextOf(n: Node): string
    decreases n
  {
    match n
    case Text(s) => s
    case Element(_, _, kids) => TextOfAll(kids)
  }

  function TextOfAll(ns: seq<Node>): string
    decreases ns
  {
    if ns == [] then "" else TextOf(ns[0]) + TextOfAll(ns[1..])
  }

  /** Every node strictly below `n`, in document order (preorder). */
  function Descendants(n: Node): seq<Node>
    decreases n
  {
    match n
    case Text(_) => []
    case Element(_, _, kids) => DescendantsOfAll(kids)
  }

  function DescendantsOfAll(ns: seq<Node>): seq<Node>
    decreases ns
  {
    if ns == [] then [] else [ns[0]] + Descendants(ns[0]) + DescendantsOfAll(ns[1..])
  }

  /** The nodes of `ns` that match `m`, in their order in `ns`. */
  function Select(ns: seq<Node>, m: Marker): (r: seq<Node>)
    ensures |r| <= |ns|
    ensures forall i :: 0 <= i < |r| ==> Matches(r[i], m)
    ensures forall i {:trigger r[i] in ns} :: 0 <= i < |r| ==> r[i] in ns
  {
    if ns == [] then []
    else
      var rest := Select(ns[1..], m);
      assert ns == [ns[0]] + ns[1..];
      assert forall i :: 0 <= i < |rest| ==> rest[i] in ns[1..] && rest[i] in ns;
      if Matches(ns[0], m) then [ns[0]] + rest else rest
  }

  /** A node is selected exactly when it is one of `ns` and matches. */
  lemma {:induction false} SelectMembers(ns: seq<Node>, m: Marker, x: Node)
    ensures x in Select(ns, m) <==> x in ns && Matches(x, m)
  {
    if ns != [] {
      SelectMembers(ns[1..], m, x);
      assert ns == [ns[0]] + ns[1..];
    }
  }

  /** `n.find_all(tag, {attribute: value})`: exactly the matching nodes
      below `n`. */
  function FindAll(n: Node, m: Marker): (r: seq<Node>)
    ensures forall x :: x in r <==> x in Descendants(n) && Matches(x, m)
  {
    FindAllMembers(n, m);
    Select(Descendants(n), m)
  }

  lemma FindAllMembers(n: Node, m: Marker)
    ensures forall x :: x in Select(Descendants(n), m) <==> x in Descendants(n) && Matches(x, m)
  {
    forall x {
      SelectMembers(Descendants(n), m, x);
    }
  }

  /** Selecting from a concatenation selects from each part in turn: the
      match list keeps the order of the page. */
  lemma {:induction false} SelectAppend(a: seq<Node>, b: seq<Node>, m: Marker)
    ensures Select(a + b, m) == Select(a, m) + Select(b, m)
  {
    if a == [] {
      assert a + b == b;
    } else {
      assert (a + b)[1..] == a[1..] + b;
      SelectAppend(a[1..], b, m);
    }
  }

  // ---------------------------------------------------------------------
  // Text

  /** The contents of the text nodes of `ns`, in order. */
  function TextsIn(ns: seq<Node>): string {
    if ns == [] then "" else (if ns[0].Text? then ns[0].content else "") + TextsIn(ns[1..])
  }

  lemma {:induction false} TextsInAppend(a: seq<Node>, b: seq<Node>)
    ensures TextsIn(a + b) == TextsIn(a) + TextsIn(b)
  {
    if a == [] {
      assert a + b == b;
    } else {
      assert (a + b)[1..] == a[1..] + b;
      TextsInAppend(a[1..], b);
    }
  }

  /** `.text` of an element is every text node below it, in document order,
      concatenated; `.text` of a text node is its own contents. */
  lemma {:induction false} TextOfCollectsText(n: Node)
    ensures n.Text? ==> TextOf(n) == n.content
    ensures n.Element? ==> TextOf(n) == TextsIn(Descendants(n))
    decreases n, 1
  {
    if n.Element? {
      TextOfAllCollectsText(n.children);
    }
  }

  lemma {:induction false} TextOfAllCollectsText(ns: seq<Node>)
    ensures TextOfAll(ns) == TextsIn(DescendantsOfAll(ns))
    decreases ns, 0
  {
    if ns != [] {
      var head, rest := ns[0], ns[1..];
      TextOfCollectsText(head);
      TextOfAllCollectsText(rest);
      TextsInAppend([head] + Descendants(head), DescendantsOfAll(rest));
      TextsInAppend([head], Descendants(head));
      assert TextsIn([head]) == (if head.Text? then head.content else "");
      if head.Text? {
        assert Descendants(head) == [];
      }
    }
  }

  // ---------------------------------------------------------------------
  // First and last matches in document order

  ghost predicate NoMatch(ns: seq<Node>, m: Marker) {
    forall i :: 0 <= i < |ns| ==> !Matches(ns[i], m)
  }

  /** `ns[i]` is the earliest node of `ns` that matches `m`. */
  ghost predicate IsFirstMatch(ns: seq<Node>, m: Marker, i: int) {
    0 <= i < |ns| && Matches(ns[i], m) && forall j :: 0 <= j < i ==> !Matches(ns[j], m)
  }

  /** `ns[i]` is the latest node of `ns` that matches `m`. */
  ghost predicate IsLastMatch(ns: seq<Node>, m: Marker, i: int) {
    0 <= i < |ns| && Matches(ns[i], m) && forall j :: i < j < |ns| ==> !Matches(ns[j], m)
  }

  /** Nothing is selected exactly when nothing matches. */
  lemma {:induction false} SelectEmpty(ns: seq<Node>, m: Marker)
    ensures Select(ns, m) == [] <==> NoMatch(ns, m)
  {
    if ns != [] {
      SelectEmpty(ns[1..], m);
      assert forall i :: 1 <= i < |ns| ==> ns[i] == ns[1..][i - 1];
    }
  }

  /** The first node selected is the earliest match. */
  lemma {:induction false} SelectFirst(ns: seq<Node>, m: Marker)
    requires Select(ns, m) != []
    ensures exists i :: IsFirstMatch(ns, m, i) && Select(ns, m)[0] == ns[i]
  {
    if Matches(ns[0], m) {
      assert IsFirstMatch(ns, m, 0);
    } else {
      SelectFirst(ns[1..], m);
      var i :| IsFirstMatch(ns[1..], m, i) && Select(ns[1..], m)[0] == ns[1..][i];
      assert IsFirstMatch(ns, m, i + 1);
    }
  }

  /** A match at the front followed by no match is the latest match. */
  lemma LastMatchAtFront(ns: seq<Node>, m: Marker)
    requires ns != [] && Matches(ns[0], m) && NoMatch(ns[1..], m)
    ensures IsLastMatch(ns, m, 0)
  {
    forall j | 0 < j < |ns| ensures !Matches(ns[j], m) {
      assert ns[j] == ns[1..][j - 1];
    }
  }

  /** The latest match of the tail is the latest match of the whole. */
  lemma LastMatchShift(ns: seq<Node>, m: Marker, i: int)
    requires ns != [] && IsLastMatch(ns[1..], m, i)
    ensures IsLastMatch(ns, m, i + 1)
  {
    forall j | i + 1 < j < |ns| ensures !Matches(ns[j], m) {
      assert ns[j] == ns[1..][j - 1];
    }
  }

  /** The last node selected is the latest match. */
  lemma {:induction false} SelectLast(ns: seq<Node>, m: Marker)
    requires Select(ns, m) != []
    ensures exists i :: IsLastMatch(ns, m, i) && Select(ns, m)[|Select(ns, m)| - 1] == ns[i]
  {
    var sel, rest := Select(ns, m), Select(ns[1..], m);
    if rest == [] {
      SelectEmpty(ns[1..], m);
      assert sel == [ns[0]];
      LastMatchAtFront(ns, m);
      assert sel[|sel| - 1] == ns[0];
    } else {
      SelectLast(ns[1..], m);
      var i :| IsLastMatch(ns[1..], m, i) && rest[|rest| - 1] == ns[1..][i];
      LastMatchShift(ns, m, i);
      assert sel[|sel| - 1] == rest[|rest| - 1];
      assert sel[|sel| - 1] == ns[i + 1];
    }
  }
}
