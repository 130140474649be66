/** The note body after HTML parsing: a tree of text, comment and element
    nodes. A container element is represented by the list of its children. */
module Dom {

  /** An element keeps its tag name (lower case, as the HTML parser produces
      it), its attributes in order, and its children. */
  datatype Node =
    | Text(data: string)
    | Comment(data: string)
    | Element(tag: string, attrs: seq<(string, string)>, children: seq<Node>)

  /** `textContent` of a container holding `nodes`: the data of every text
      node below it, in document order, with nothing added between them. */
  function TextContent(nodes: seq<Node>): string
    decreases nodes
  {
    if |nodes| == 0 then ""
    else
      (match nodes[0]
       case Text(d) => d
       case Comment(_) => ""
       case Element(_, _, ch) => TextContent(ch))
      + TextContent(nodes[1..])
  }

  predicate HasAttr(attrs: seq<(string, string)>, name: string) {
    exists i :: 0 <= i < |attrs| && attrs[i].0 == name
  }

  /** An element that `closest('[data-ai-mark]')` or `closest('code,pre')`
      finds: text below it is never rewritten. */
  predicate Shields(tag: string, attrs: seq<(string, string)>) {
    tag == "code" || tag == "pre" || HasAttr(attrs, "data-ai-mark")
  }

  /** The data of the text nodes a rewrite pass may hand to its callback, in
      the order a tree walker visits them; `blocked` says that an enclosing
      element already shields them. */
  function Eligible(nodes: seq<Node>, blocked: bool): seq<string>
    decreases nodes
  {
    if |nodes| == 0 then []
    else
      (match nodes[0]
       case Text(d) => if blocked then [] else [d]
       case Comment(_) => []
       case Element(tag, attrs, ch) => Eligible(ch, blocked || Shields(tag, attrs)))
      + Eligible(nodes[1..], blocked)
  }

  /** The text of two runs of siblings is the text of the first, then the
      text of the second. */
  lemma {:induction false} TextContentAppend(a: seq<Node>, b: seq<Node>)
    ensures TextContent(a + b) == TextContent(a) + TextContent(b)
    decreases |a|
  {
    if |a| == 0 {
      assert a + b == b;
    } else {
      assert (a + b)[0] == a[0] && (a + b)[1..] == a[1..] + b;
      TextContentAppend(a[1..], b);
    }
  }

  lemma {:induction false} EligibleAppend(a: seq<Node>, b: seq<Node>, blocked: bool)
    ensures Eligible(a + b, blocked) == Eligible(a, blocked) + Eligible(b, blocked)
    decreases |a|
  {
    if |a| == 0 {
      assert a + b == b;
    } else {
      assert (a + b)[0] == a[0] && (a + b)[1..] == a[1..] + b;
      EligibleAppend(a[1..], b, blocked);
    }
  }

  /** Nothing below a shielding element is eligible. */
  lemma {:induction false} BlockedHasNoEligible(nodes: seq<Node>)
    ensures Eligible(nodes, true) == []
    decreases nodes
  {
    if |nodes| > 0 {
      if nodes[0].Element? {
        BlockedHasNoEligible(nodes[0].children);
      }
      BlockedHasNoEligible(nodes[1..]);
    }
  }
}
