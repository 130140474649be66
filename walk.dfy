/** The tree walk of `walkTextNodes` (aiHelpers.ts:86-96) with its
    callback, as a function of the rewrite each eligible text gets. */
module TreeWalk {
  import opened Wrappers
  import opened Dom

  /** The walk of `walkTextNodes` (aiHelpers.ts:86-96) with the pass as its
      callback, over `nodes` in document order: a text node below a shielding
      element is skipped; the first text node the pass rewrites is replaced
      by the fragment, and there the walk ends, because the replaced node no
      longer has a next sibling or a parent for `nextNode()` to move to.
      The result is the new list and whether a node was replaced. */
  function Walk(nodes: seq<Node>, blocked: bool, rw: string -> Option<seq<Node>>): (seq<Node>, bool)
    decreases nodes
  {
    if |nodes| == 0 then ([], false)
    else
      var inner: Option<seq<Node>> :=
        match nodes[0]
        case Text(d) => if blocked then None else rw(d)
        case Comment(_) => None
        case Element(tag, attrs, ch) =>
          var c := Walk(ch, blocked || Shields(tag, attrs), rw);
          if c.1 then Some([Element(tag, attrs, c.0)]) else None;
      if inner.Some? then (inner.value + nodes[1..], true)
      else
        var rest := Walk(nodes[1..], blocked, rw);
        ([nodes[0]] + rest.0, rest.1)
  }

  /** What the walk does with the first node of a list: the fragment that
      replaces it, or `None` when the walk moves on to its next sibling. */
  function HeadRewrite(n: Node, blocked: bool, rw: string -> Option<seq<Node>>): Option<seq<Node>> {
    match n
    case Text(d) => if blocked then None else rw(d)
    case Comment(_) => None
    case Element(tag, attrs, ch) =>
      var c := Walk(ch, blocked || Shields(tag, attrs), rw);
      if c.1 then Some([Element(tag, attrs, c.0)]) else None
  }

  lemma WalkUnfold(nodes: seq<Node>, blocked: bool, rw: string -> Option<seq<Node>>)
    requires |nodes| > 0
    ensures HeadRewrite(nodes[0], blocked, rw).Some? ==>
      Walk(nodes, blocked, rw) == (HeadRewrite(nodes[0], blocked, rw).value + nodes[1..], true)
    ensures HeadRewrite(nodes[0], blocked, rw).None? ==>
      Walk(nodes, blocked, rw) == ([nodes[0]] + Walk(nodes[1..], blocked, rw).0, Walk(nodes[1..], blocked, rw).1)
  {
  }

  /** The position of the first text the pass would rewrite, or `|texts|`
      when it rewrites none of them. */
  function FirstRewritable(rw: string -> Option<seq<Node>>, texts: seq<string>): (i: nat)
    ensures i <= |texts|
    ensures forall j :: 0 <= j < i ==> rw(texts[j]).None?
    ensures i < |texts| ==> rw(texts[i]).Some?
  {
    if |texts| == 0 then 0
    else if rw(texts[0]).Some? then 0
    else 1 + FirstRewritable(rw, texts[1..])
  }

  /** How many of the texts the pass would rewrite. */
  function RewritableCount(rw: string -> Option<seq<Node>>, texts: seq<string>): nat {
    if |texts| == 0 then 0
    else (if rw(texts[0]).Some? then 1 else 0) + RewritableCount(rw, texts[1..])
  }

  lemma {:induction false} CountAppend(rw: string -> Option<seq<Node>>, a: seq<string>, b: seq<string>)
    ensures RewritableCount(rw, a + b) == RewritableCount(rw, a) + RewritableCount(rw, b)
    decreases |a|
  {
    if |a| == 0 {
      assert a + b == b;
    } else {
      assert (a + b)[0] == a[0] && (a + b)[1..] == a[1..] + b;
      CountAppend(rw, a[1..], b);
    }
  }

  lemma {:induction false} CountNone(rw: string -> Option<seq<Node>>, a: seq<string>)
    requires forall j :: 0 <= j < |a| ==> rw(a[j]).None?
    ensures RewritableCount(rw, a) == 0
    decreases |a|
  {
    if |a| > 0 {
      assert forall j :: 0 <= j < |a| - 1 ==> a[1..][j] == a[j + 1];
      CountNone(rw, a[1..]);
    }
  }

  /** The eligible texts after the first rewritable one is replaced by the
      eligible texts of its fragment; unchanged when none is rewritable. */
  function Respliced(rw: string -> Option<seq<Node>>, sub: string -> seq<string>, texts: seq<string>): seq<string> {
    if |texts| == 0 then []
    else if rw(texts[0]).Some? then sub(texts[0]) + texts[1..]
    else [texts[0]] + Respliced(rw, sub, texts[1..])
  }

  /** The eligible texts of the fragment a text is rewritten to. */
  function FragmentTexts(rw: string -> Option<seq<Node>>): string -> seq<string> {
    d => if rw(d).Some? then Eligible(rw(d).value, false) else []
  }

  /** `Respliced` keeps the texts before the first rewritable one and after it. */
  lemma {:induction false} ResplicedAt(rw: string -> Option<seq<Node>>, sub: string -> seq<string>, texts: seq<string>)
    requires FirstRewritable(rw, texts) < |texts|
    ensures Respliced(rw, sub, texts) ==
      texts[..FirstRewritable(rw, texts)]
      + sub(texts[FirstRewritable(rw, texts)])
      + texts[FirstRewritable(rw, texts) + 1..]
    decreases |texts|
  {
    if rw(texts[0]).Some? {
      assert texts[..0] == [];
    } else {
      var t := texts[1..];
      ResplicedAt(rw, sub, t);
      assert texts == [texts[0]] + t;
      SpliceCons(texts[0], t, FirstRewritable(rw, t), sub(t[FirstRewritable(rw, t)]));
    }
  }

  lemma SpliceCons<T>(h: T, t: seq<T>, k: nat, x: seq<T>)
    requires k < |t|
    ensures ([h] + t)[k + 1] == t[k]
    ensures [h] + (t[..k] + x + t[k + 1..]) == ([h] + t)[..k + 1] + x + ([h] + t)[k + 2..]
  {
    assert ([h] + t)[..k + 1] == [h] + t[..k];
    assert ([h] + t)[k + 2..] == t[k + 1..];
  }

  /** Texts none of which is rewritable pass through unchanged. */
  lemma {:induction false} ResplicedClean(rw: string -> Option<seq<Node>>, sub: string -> seq<string>, a: seq<string>, b: seq<string>)
    requires FirstRewritable(rw, a) == |a|
    ensures FirstRewritable(rw, a + b) == |a| + FirstRewritable(rw, b)
    ensures Respliced(rw, sub, a + b) == a + Respliced(rw, sub, b)
    decreases |a|
  {
    if |a| == 0 {
      assert a + b == b;
    } else {
      assert (a + b)[0] == a[0] && (a + b)[1..] == a[1..] + b;
      ResplicedClean(rw, sub, a[1..], b);
      assert a + Respliced(rw, sub, b) == [a[0]] + (a[1..] + Respliced(rw, sub, b));
    }
  }

  /** Once the first rewritable text is in `a`, what follows is untouched. */
  lemma {:induction false} ResplicedHead(rw: string -> Option<seq<Node>>, sub: string -> seq<string>, a: seq<string>, b: seq<string>)
    requires FirstRewritable(rw, a) < |a|
    ensures FirstRewritable(rw, a + b) == FirstRewritable(rw, a)
    ensures Respliced(rw, sub, a + b) == Respliced(rw, sub, a) + b
    decreases |a|
  {
    assert (a + b)[0] == a[0] && (a + b)[1..] == a[1..] + b;
    if rw(a[0]).None? {
      ResplicedHead(rw, sub, a[1..], b);
    }
  }

  /** What one walk does, in terms of the eligible texts (aiHelpers.ts:86-96,
      :108, :174): it replaces a node exactly when some eligible text is
      rewritten, and then only the first such text, whose eligible texts give
      way to the fragment's; with no replacement the tree is unchanged. Text
      below a shielding element is never handed to the rewrite. */
  predicate WalkSpec(nodes: seq<Node>, blocked: bool, rw: string -> Option<seq<Node>>) {
    && (Walk(nodes, blocked, rw).1 <==>
        FirstRewritable(rw, Eligible(nodes, blocked)) < |Eligible(nodes, blocked)|)
    && (!Walk(nodes, blocked, rw).1 ==> Walk(nodes, blocked, rw).0 == nodes)
    && (Walk(nodes, blocked, rw).1 ==>
        Eligible(Walk(nodes, blocked, rw).0, blocked) == Respliced(rw, FragmentTexts(rw), Eligible(nodes, blocked)))
  }

  lemma {:induction false} WalkEffect(nodes: seq<Node>, blocked: bool, rw: string -> Option<seq<Node>>)
    ensures WalkSpec(nodes, blocked, rw)
    decreases nodes
  {
    if |nodes| > 0 {
      WalkEffect(nodes[1..], blocked, rw);
      var n := nodes[0];
      if n.Text? && !blocked && rw(n.data).Some? {
        WalkTextHit(nodes, blocked, rw);
      } else if n.Element? {
        var b := blocked || Shields(n.tag, n.attrs);
        WalkEffect(n.children, b, rw);
        if Walk(n.children, b, rw).1 {
          WalkElementHit(nodes, blocked, rw);
        } else {
          NodeSkipped(nodes, blocked, rw);
          WalkSkip(nodes, blocked, rw);
        }
      } else {
        NodeSkipped(nodes, blocked, rw);
        WalkSkip(nodes, blocked, rw);
      }
    }
  }

  /** The first node is a text the rewrite replaces. */
  lemma WalkTextHit(nodes: seq<Node>, blocked: bool, rw: string -> Option<seq<Node>>)
    requires |nodes| > 0 && nodes[0].Text? && !blocked && rw(nodes[0].data).Some?
    ensures WalkSpec(nodes, blocked, rw)
  {
    var d, tail := nodes[0].data, nodes[1..];
    var frag := rw(d).value;
    assert [nodes[0]] + tail == nodes;
    EligibleAppend([nodes[0]], tail, blocked);
    assert [nodes[0]][1..] == [];
    var Et := Eligible(tail, blocked);
    assert Eligible(nodes, blocked) == [d] + Et;
    EligibleAppend(frag, tail, false);
    assert ([d] + Et)[1..] == Et;
  }

  /** The first node is an element below which a text is replaced. */
  lemma WalkElementHit(nodes: seq<Node>, blocked: bool, rw: string -> Option<seq<Node>>)
    requires |nodes| > 0 && nodes[0].Element?
    requires WalkSpec(nodes[0].children, blocked || Shields(nodes[0].tag, nodes[0].attrs), rw)
    requires Walk(nodes[0].children, blocked || Shields(nodes[0].tag, nodes[0].attrs), rw).1
    ensures WalkSpec(nodes, blocked, rw)
  {
    var n, tail := nodes[0], nodes[1..];
    var b := blocked || Shields(n.tag, n.attrs);
    var c := Walk(n.children, b, rw);
    var el := Element(n.tag, n.attrs, c.0);
    assert Walk(nodes, blocked, rw) == ([el] + tail, true);
    assert [n] + tail == nodes;
    EligibleAppend([n], tail, blocked);
    EligibleAppend([el], tail, blocked);
    assert [n][1..] == [] && [el][1..] == [];
    var en, Et := Eligible([n], blocked), Eligible(tail, blocked);
    assert en == Eligible(n.children, b) + [] == Eligible(n.children, b);
    assert Eligible([el], blocked) == Eligible(c.0, b) + [] == Eligible(c.0, b);
    ResplicedHead(rw, FragmentTexts(rw), en, Et);
  }

  /** A first node that is not replaced: none of its texts is rewritable and
      the walk goes on with its next sibling. */
  lemma NodeSkipped(nodes: seq<Node>, blocked: bool, rw: string -> Option<seq<Node>>)
    requires |nodes| > 0
    requires nodes[0].Text? ==> blocked || rw(nodes[0].data).None?
    requires nodes[0].Element? ==>
      && WalkSpec(nodes[0].children, blocked || Shields(nodes[0].tag, nodes[0].attrs), rw)
      && !Walk(nodes[0].children, blocked || Shields(nodes[0].tag, nodes[0].attrs), rw).1
    ensures FirstRewritable(rw, Eligible([nodes[0]], blocked)) == |Eligible([nodes[0]], blocked)|
    ensures Walk(nodes, blocked, rw) == ([nodes[0]] + Walk(nodes[1..], blocked, rw).0, Walk(nodes[1..], blocked, rw).1)
  {
    var n := nodes[0];
    assert [n][1..] == [];
    if n.Element? {
      assert Eligible([n], blocked) == Eligible(n.children, blocked || Shields(n.tag, n.attrs)) + [];
    }
  }

  /** The walk passes over a first node it does not replace. */
  lemma WalkSkip(nodes: seq<Node>, blocked: bool, rw: string -> Option<seq<Node>>)
    requires |nodes| > 0
    requires FirstRewritable(rw, Eligible([nodes[0]], blocked)) == |Eligible([nodes[0]], blocked)|
    requires Walk(nodes, blocked, rw) == ([nodes[0]] + Walk(nodes[1..], blocked, rw).0, Walk(nodes[1..], blocked, rw).1)
    requires WalkSpec(nodes[1..], blocked, rw)
    ensures WalkSpec(nodes, blocked, rw)
  {
    var n, tail := nodes[0], nodes[1..];
    var en, Et := Eligible([n], blocked), Eligible(tail, blocked);
    assert [n] + tail == nodes;
    EligibleAppend([n], tail, blocked);
    ResplicedClean(rw, FragmentTexts(rw), en, Et);
    var Wt := Walk(tail, blocked, rw);
    if Wt.1 {
      EligibleAppend([n], Wt.0, blocked);
    }
  }

  /** A rewrite that keeps a text's content. */
  ghost predicate KeepsText(rw: string -> Option<seq<Node>>) {
    forall d :: rw(d).Some? ==> TextContent(rw(d).value) == d
  }

  /** With such a rewrite the walk keeps the text of the whole tree. */
  lemma {:induction false} WalkKeepsText(nodes: seq<Node>, blocked: bool, rw: string -> Option<seq<Node>>)
    requires KeepsText(rw)
    ensures TextContent(Walk(nodes, blocked, rw).0) == TextContent(nodes)
    decreases nodes
  {
    if |nodes| > 0 {
      var n, tail := nodes[0], nodes[1..];
      assert [n] + tail == nodes;
      TextContentAppend([n], tail);
      assert [n][1..] == [];
      var W := Walk(nodes, blocked, rw);
      if n.Text? && !blocked && rw(n.data).Some? {
        TextContentAppend(rw(n.data).value, tail);
      } else if n.Element? && Walk(n.children, blocked || Shields(n.tag, n.attrs), rw).1 {
        var el := Element(n.tag, n.attrs, Walk(n.children, blocked || Shields(n.tag, n.attrs), rw).0);
        WalkKeepsText(n.children, blocked || Shields(n.tag, n.attrs), rw);
        assert W == ([el] + tail, true);
        TextContentAppend([el], tail);
        assert [el][1..] == [];
      } else {
        assert W == ([n] + Walk(tail, blocked, rw).0, Walk(tail, blocked, rw).1);
        WalkKeepsText(tail, blocked, rw);
        TextContentAppend([n], Walk(tail, blocked, rw).0);
      }
    }
  }

  /** Replacing the first rewritable text by texts none of which is
      rewritable leaves one rewritable text fewer. */
  lemma {:induction false} CountRespliced(rw: string -> Option<seq<Node>>, sub: string -> seq<string>, texts: seq<string>)
    requires FirstRewritable(rw, texts) < |texts|
    requires forall j :: 0 <= j < |sub(texts[FirstRewritable(rw, texts)])| ==>
      rw(sub(texts[FirstRewritable(rw, texts)])[j]).None?
    ensures RewritableCount(rw, Respliced(rw, sub, texts)) + 1 == RewritableCount(rw, texts)
    decreases |texts|
  {
    var rest := texts[1..];
    if rw(texts[0]).Some? {
      CountAppend(rw, sub(texts[0]), rest);
      CountNone(rw, sub(texts[0]));
    } else {
      CountRespliced(rw, sub, rest);
      var r := Respliced(rw, sub, rest);
      assert ([texts[0]] + r)[0] == texts[0] && ([texts[0]] + r)[1..] == r;
    }
  }

  /** A rewrite whose fragments hold no text it would rewrite again. */
  ghost predicate Settles(rw: string -> Option<seq<Node>>) {
    forall d, j :: rw(d).Some? && 0 <= j < |Eligible(rw(d).value, false)| ==>
      rw(Eligible(rw(d).value, false)[j]).None?
  }

  /** With such a rewrite each walk that replaces a node leaves one
      rewritable eligible text fewer, so walking again and again stops. */
  lemma WalkProgress(nodes: seq<Node>, blocked: bool, rw: string -> Option<seq<Node>>)
    requires Settles(rw)
    ensures Walk(nodes, blocked, rw).1 ==>
      RewritableCount(rw, Eligible(Walk(nodes, blocked, rw).0, blocked)) + 1 ==
        RewritableCount(rw, Eligible(nodes, blocked))
  {
    WalkEffect(nodes, blocked, rw);
    var E := Eligible(nodes, blocked);
    if Walk(nodes, blocked, rw).1 {
      var d := E[FirstRewritable(rw, E)];
      assert FragmentTexts(rw)(d) == Eligible(rw(d).value, false);
      CountRespliced(rw, FragmentTexts(rw), E);
    }
  }
}
