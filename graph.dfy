/**
 * The graph server's data: one node per category, subcategory and note, a
 * `hierarchy` link from each parent to each child, and a `backlink` link for
 * each wiki link that names another note (titles compared ignoring case).
 */
module GraphServer {
  import opened Wrappers
  import opened Text
  import opened Order
  import opened Corpus
  import opened Links
  import Utils

  datatype GraphNode =
    | OberNode(id: string, caption: string)
    | UnterNode(id: string, caption: string, parent: string)
    | NoteNode(id: string, caption: string, oberkategorie: string, unterkategorie: string, thema: string, backlinks: seq<string>)

  /** The node's `type` field. */
  function TypeName(n: GraphNode): string
  {
    match n
    case OberNode(_, _) => "oberkategorie"
    case UnterNode(_, _, _) => "unterkategorie"
    case NoteNode(_, _, _, _, _, _) => "note"
  }

  datatype LinkType = Hierarchy | Backlink

  datatype GraphLink = GraphLink(source: string, target: string, kind: LinkType)

  function OberId(c: string): string
  {
    "ober:" + c
  }

  function UnterId(c: string, s: string): string
  {
    "unter:" + c + "/" + s
  }

  function NoteId(c: string, s: string, th: string): string
  {
    "note:" + c + "/" + s + "/" + th
  }

  // ---------------------------------------------------------------------------
  // extractBacklinks (this copy returns nothing for absent or empty content)
  // ---------------------------------------------------------------------------

  /** The links of a note's content as the graph server extracts them. */
  function GraphBacklinks(content: Option<string>): (r: seq<string>)
    ensures content.None? ==> r == []
    ensures content.Some? ==> r == Backlinks(content.value)
  {
    if content.None? || content.value == "" then [] else Backlinks(content.value)
  }

  /** extractBacklinks: the guard, then `regex.exec` until it finds nothing, then duplicates dropped. */
  method ExtractBacklinks(content: Option<string>) returns (links: seq<string>)
    ensures links == GraphBacklinks(content)
  {
    if content.None? || content.value == "" {
      return [];
    }
    links := Utils.ExtractBacklinks(content.value);
  }

  // ---------------------------------------------------------------------------
  // Nodes, in the order of the nested loops
  // ---------------------------------------------------------------------------

  function NoteNodeOf(t: Tree, c: string, s: string, th: string): GraphNode
  {
    NoteNode(NoteId(c, s, th), th, c, s, th, GraphBacklinks(ReadNote(t, c, s, th)))
  }

  /** The nodes of the notes `ns` of subcategory `c/s`. */
  function NoteNodes(t: Tree, c: string, s: string, ns: seq<string>): seq<GraphNode>
  {
    if ns == [] then [] else NoteNodes(t, c, s, ns[..|ns| - 1]) + [NoteNodeOf(t, c, s, ns[|ns| - 1])]
  }

  /** For each subcategory in `ss`: its node, then the nodes of its notes. */
  function SubNodes(t: Tree, c: string, ss: seq<string>): seq<GraphNode>
  {
    if ss == [] then []
    else
      var s := ss[|ss| - 1];
      SubNodes(t, c, ss[..|ss| - 1]) + [UnterNode(UnterId(c, s), s, OberId(c))] + NoteNodes(t, c, s, Notes(t, c, s))
  }

  /** For each category in `cs`: its node, then the nodes below it. */
  function CatNodes(t: Tree, cs: seq<string>): seq<GraphNode>
  {
    if cs == [] then []
    else
      var c := cs[|cs| - 1];
      CatNodes(t, cs[..|cs| - 1]) + [OberNode(OberId(c), c)] + SubNodes(t, c, Unterkategorien(t, c))
  }

  /** The nodes of the graph. */
  function Nodes(t: Tree): seq<GraphNode>
  {
    CatNodes(t, Oberkategorien(t))
  }

  // ---------------------------------------------------------------------------
  // Links and the title index
  // ---------------------------------------------------------------------------

  /** The hierarchy link into a node: from a subcategory's category, from a note's subcategory. */
  function HierarchyLinkOf(n: GraphNode): seq<GraphLink>
  {
    match n
    case OberNode(_, _) => []
    case UnterNode(id, _, parent) => [GraphLink(parent, id, Hierarchy)]
    case NoteNode(id, _, c, s, _, _) => [GraphLink(UnterId(c, s), id, Hierarchy)]
  }

  /** The hierarchy links of `nodes`, in node order. */
  function HierarchyLinks(nodes: seq<GraphNode>): seq<GraphLink>
  {
    if nodes == [] then [] else HierarchyLinks(nodes[..|nodes| - 1]) + HierarchyLinkOf(nodes[|nodes| - 1])
  }

  /** `noteNodeMap`: each note node under its lower-cased title; a later note overwrites an earlier one. */
  function TitleIndex(nodes: seq<GraphNode>): map<string, GraphNode>
  {
    if nodes == [] then map[]
    else
      var n := nodes[|nodes| - 1];
      if n.NoteNode? then TitleIndex(nodes[..|nodes| - 1])[Lower(n.thema) := n] else TitleIndex(nodes[..|nodes| - 1])
  }

  /** The backlink edge for one link name: present when the title resolves to another node. */
  function EdgeFor(n: GraphNode, b: string, idx: map<string, GraphNode>): seq<GraphLink>
  {
    if Lower(b) in idx && idx[Lower(b)].id != n.id then [GraphLink(n.id, idx[Lower(b)].id, Backlink)] else []
  }

  /** The backlink edges out of note node `n` for the link names `bls`, in order. */
  function LinksFrom(n: GraphNode, bls: seq<string>, idx: map<string, GraphNode>): seq<GraphLink>
  {
    if bls == [] then [] else LinksFrom(n, bls[..|bls| - 1], idx) + EdgeFor(n, bls[|bls| - 1], idx)
  }

  /** The backlink edges of all note nodes, in node order. */
  function BacklinkLinks(nodes: seq<GraphNode>, idx: map<string, GraphNode>): seq<GraphLink>
  {
    if nodes == [] then []
    else
      var n := nodes[|nodes| - 1];
      BacklinkLinks(nodes[..|nodes| - 1], idx) + NodeEdges(n, idx)
  }

  /** The backlink edges out of node `n`: none unless it is a note. */
  function NodeEdges(n: GraphNode, idx: map<string, GraphNode>): seq<GraphLink>
  {
    if n.NoteNode? then LinksFrom(n, n.backlinks, idx) else []
  }

  /** The links of the graph: every hierarchy link, then every backlink. */
  function GraphLinks(t: Tree): seq<GraphLink>
  {
    var nodes := Nodes(t);
    HierarchyLinks(nodes) + BacklinkLinks(nodes, TitleIndex(nodes))
  }

  // ---------------------------------------------------------------------------
  // buildGraphData
  // ---------------------------------------------------------------------------

  /** buildGraphData: the nested loops pushing nodes and hierarchy links, then the loop adding backlinks. */
  method BuildGraphData(t: Tree) returns (nodes: seq<GraphNode>, links: seq<GraphLink>)
    requires WellFormed(t)
    ensures nodes == Nodes(t)
    ensures links == GraphLinks(t)
  {
    var oberkategorien := Oberkategorien(t);
    var noteNodeMap;
    nodes, links, noteNodeMap := AddCategories(t, oberkategorien);
    links := AddBacklinks(nodes, noteNodeMap, links);
  }

  /** The outer loop over the categories `obers`: their nodes, the hierarchy links and the title map. */
  method AddCategories(t: Tree, obers: seq<string>) returns (nodes: seq<GraphNode>, links: seq<GraphLink>, index: map<string, GraphNode>)
    requires WellFormed(t) && forall c :: c in obers ==> c in t.cats
    ensures nodes == CatNodes(t, obers)
    ensures links == HierarchyLinks(nodes) && index == TitleIndex(nodes)
  {
    nodes := [];
    links := [];
    index := map[];
    var i := 0;
    while i < |obers|
      invariant 0 <= i <= |obers|
      invariant nodes == CatNodes(t, obers[..i])
      invariant links == HierarchyLinks(nodes) && index == TitleIndex(nodes)
    {
      var ober := obers[i];
      var oberNode := OberNode(OberId(ober), ober);
      HierarchyAppend(nodes, oberNode);
      TitleIndexAppend(nodes, oberNode);
      nodes := nodes + [oberNode];
      nodes, links, index := AddSubcategories(t, ober, nodes, links, index);
      CatNodesStep(t, obers, i);
      i := i + 1;
    }
    assert obers[..i] == obers;
  }

  /** The loop over the subcategories of `ober`. */
  method AddSubcategories(t: Tree, ober: string, nodes0: seq<GraphNode>, links0: seq<GraphLink>, index0: map<string, GraphNode>)
    returns (nodes: seq<GraphNode>, links: seq<GraphLink>, index: map<string, GraphNode>)
    requires WellFormed(t) && ober in t.cats
    requires links0 == HierarchyLinks(nodes0) && index0 == TitleIndex(nodes0)
    ensures nodes == nodes0 + SubNodes(t, ober, Unterkategorien(t, ober))
    ensures links == HierarchyLinks(nodes) && index == TitleIndex(nodes)
  {
    nodes, links, index := nodes0, links0, index0;
    var unterkategorien := GetUnterkategorien(t, ober).value;
    var j := 0;
    while j < |unterkategorien|
      invariant 0 <= j <= |unterkategorien|
      invariant nodes == nodes0 + SubNodes(t, ober, unterkategorien[..j])
      invariant links == HierarchyLinks(nodes) && index == TitleIndex(nodes)
    {
      var unter := unterkategorien[j];
      var unterNode := UnterNode(UnterId(ober, unter), unter, OberId(ober));
      HierarchyAppend(nodes, unterNode);
      TitleIndexAppend(nodes, unterNode);
      nodes := nodes + [unterNode];
      links := links + [GraphLink(OberId(ober), UnterId(ober, unter), Hierarchy)];
      ListedSubcategoryIsDirectory(t, ober, unter);
      nodes, links, index := AddNotes(t, ober, unter, nodes, links, index);
      SubNodesStep(t, ober, unterkategorien, j);
      Regroup(nodes0, SubNodes(t, ober, unterkategorien[..j]), [unterNode], NoteNodes(t, ober, unter, Notes(t, ober, unter)));
      j := j + 1;
    }
    assert unterkategorien[..j] == unterkategorien;
  }

  /** The loop over the notes of `ober/unter`. */
  method AddNotes(t: Tree, ober: string, unter: string, nodes0: seq<GraphNode>, links0: seq<GraphLink>, index0: map<string, GraphNode>)
    returns (nodes: seq<GraphNode>, links: seq<GraphLink>, index: map<string, GraphNode>)
    requires GetNotes(t, ober, unter).Success?
    requires links0 == HierarchyLinks(nodes0) && index0 == TitleIndex(nodes0)
    ensures nodes == nodes0 + NoteNodes(t, ober, unter, Notes(t, ober, unter))
    ensures links == HierarchyLinks(nodes) && index == TitleIndex(nodes)
  {
    nodes, links, index := nodes0, links0, index0;
    var notes := GetNotes(t, ober, unter).value;
    var unterId := UnterId(ober, unter);
    var k := 0;
    while k < |notes|
      invariant 0 <= k <= |notes|
      invariant nodes == nodes0 + NoteNodes(t, ober, unter, notes[..k])
      invariant links == HierarchyLinks(nodes) && index == TitleIndex(nodes)
    {
      var thema := notes[k];
      var noteId := NoteId(ober, unter, thema);
      var content := ReadNote(t, ober, unter, thema);
      var backlinks := ExtractBacklinks(content);
      var noteNode := NoteNode(noteId, thema, ober, unter, thema, backlinks);
      assert noteNode == NoteNodeOf(t, ober, unter, thema);
      AddNoteStep(t, ober, unter, notes, k, nodes0, nodes);
      nodes := nodes + [noteNode];
      index := index[Lower(thema) := noteNode];
      links := links + [GraphLink(unterId, noteId, Hierarchy)];
      k := k + 1;
    }
    assert notes[..k] == notes;
  }

  /** One round of the loop over the notes: the node, its hierarchy link and its index entry. */
  lemma AddNoteStep(t: Tree, ober: string, unter: string, notes: seq<string>, k: nat, nodes0: seq<GraphNode>, nodes: seq<GraphNode>)
    requires k < |notes| && nodes == nodes0 + NoteNodes(t, ober, unter, notes[..k])
    ensures var n := NoteNodeOf(t, ober, unter, notes[k]);
      nodes + [n] == nodes0 + NoteNodes(t, ober, unter, notes[..k + 1]) &&
      HierarchyLinks(nodes + [n]) == HierarchyLinks(nodes) + [GraphLink(UnterId(ober, unter), NoteId(ober, unter, notes[k]), Hierarchy)] &&
      TitleIndex(nodes + [n]) == TitleIndex(nodes)[Lower(notes[k]) := n]
  {
    var n := NoteNodeOf(t, ober, unter, notes[k]);
    HierarchyAppend(nodes, n);
    TitleIndexAppend(nodes, n);
    NoteNodesStep(t, ober, unter, notes, k);
  }

  /** The loop over all nodes appending the backlink edges of each note node. */
  method AddBacklinks(nodes: seq<GraphNode>, index: map<string, GraphNode>, links0: seq<GraphLink>) returns (links: seq<GraphLink>)
    ensures links == links0 + BacklinkLinks(nodes, index)
  {
    links := links0;
    var i := 0;
    while i < |nodes|
      invariant 0 <= i <= |nodes|
      invariant links == links0 + BacklinkLinks(nodes[..i], index)
    {
      var node := nodes[i];
      BacklinkLinksStep(nodes, index, i);
      links := AddNodeEdges(node, index, links);
      LinksRegroup(links0, BacklinkLinks(nodes[..i], index), NodeEdges(node, index));
      i := i + 1;
    }
    assert nodes[..i] == nodes;
  }

  lemma BacklinkLinksStep(nodes: seq<GraphNode>, idx: map<string, GraphNode>, i: nat)
    requires i < |nodes|
    ensures BacklinkLinks(nodes[..i + 1], idx) ==
      BacklinkLinks(nodes[..i], idx) + NodeEdges(nodes[i], idx)
  {
    assert nodes[..i + 1][..i] == nodes[..i];
  }

  /** One round of the loop over the nodes: the backlink edges of `node` when it is a note. */
  method AddNodeEdges(node: GraphNode, index: map<string, GraphNode>, links0: seq<GraphLink>) returns (links: seq<GraphLink>)
    ensures links == links0 + NodeEdges(node, index)
  {
    links := links0;
    if node.NoteNode? {
      var edges := EdgesOf(node, index);
      links := links + edges;
    }
  }

  /** The inner loop over the link names of one note node. */
  method EdgesOf(node: GraphNode, index: map<string, GraphNode>) returns (edges: seq<GraphLink>)
    requires node.NoteNode?
    ensures edges == LinksFrom(node, node.backlinks, index)
  {
    edges := [];
    var bls := node.backlinks;
    var k := 0;
    while k < |bls|
      invariant 0 <= k <= |bls|
      invariant edges == LinksFrom(node, bls[..k], index)
    {
      var backlinkName := bls[k];
      assert bls[..k + 1][..k] == bls[..k];
      var key := Lower(backlinkName);
      if key in index && index[key].id != node.id {
        edges := edges + [GraphLink(node.id, index[key].id, Backlink)];
      }
      k := k + 1;
    }
    assert bls[..k] == bls;
  }

  // ---------------------------------------------------------------------------
  // Unfolding steps
  // ---------------------------------------------------------------------------

  lemma LinksRegroup(a: seq<GraphLink>, b: seq<GraphLink>, c: seq<GraphLink>)
    ensures a + b + c == a + (b + c)
  {
  }

  lemma Regroup(a: seq<GraphNode>, b: seq<GraphNode>, c: seq<GraphNode>, d: seq<GraphNode>)
    ensures a + b + c + d == a + (b + c + d)
  {
    assert a + b + c + d == a + (b + c + d) by {
      assert |a + b + c + d| == |a + (b + c + d)|;
    }
  }

  lemma HierarchyAppend(nodes: seq<GraphNode>, n: GraphNode)
    ensures HierarchyLinks(nodes + [n]) == HierarchyLinks(nodes) + HierarchyLinkOf(n)
  {
    assert (nodes + [n])[..|nodes|] == nodes;
  }

  lemma TitleIndexAppend(nodes: seq<GraphNode>, n: GraphNode)
    ensures TitleIndex(nodes + [n]) == if n.NoteNode? then TitleIndex(nodes)[Lower(n.thema) := n] else TitleIndex(nodes)
  {
    assert (nodes + [n])[..|nodes|] == nodes;
  }

  lemma NoteNodesStep(t: Tree, c: string, s: string, ns: seq<string>, k: nat)
    requires k < |ns|
    ensures NoteNodes(t, c, s, ns[..k + 1]) == NoteNodes(t, c, s, ns[..k]) + [NoteNodeOf(t, c, s, ns[k])]
  {
    assert ns[..k + 1][..k] == ns[..k];
  }

  lemma SubNodesStep(t: Tree, c: string, ss: seq<string>, j: nat)
    requires j < |ss|
    ensures SubNodes(t, c, ss[..j + 1]) ==
      SubNodes(t, c, ss[..j]) + [UnterNode(UnterId(c, ss[j]), ss[j], OberId(c))] + NoteNodes(t, c, ss[j], Notes(t, c, ss[j]))
  {
    assert ss[..j + 1][..j] == ss[..j];
  }

  lemma CatNodesStep(t: Tree, cs: seq<string>, i: nat)
    requires i < |cs|
    ensures CatNodes(t, cs[..i + 1]) == CatNodes(t, cs[..i]) + [OberNode(OberId(cs[i]), cs[i])] + SubNodes(t, cs[i], Unterkategorien(t, cs[i]))
  {
    assert cs[..i + 1][..i] == cs[..i];
  }

  lemma {:induction false} HierarchyConcat(a: seq<GraphNode>, b: seq<GraphNode>)
    ensures HierarchyLinks(a + b) == HierarchyLinks(a) + HierarchyLinks(b)
    decreases |b|
  {
    if b == [] {
      assert a + b == a;
    } else {
      var init := b[..|b| - 1];
      var n := b[|b| - 1];
      assert a + b == (a + init) + [n];
      assert init + [n] == b;
      calc {
        HierarchyLinks(a + b);
        { HierarchyAppend(a + init, n); }
        HierarchyLinks(a + init) + HierarchyLinkOf(n);
        { HierarchyConcat(a, init); }
        HierarchyLinks(a) + HierarchyLinks(init) + HierarchyLinkOf(n);
        { HierarchyAppend(init, n); }
        HierarchyLinks(a) + HierarchyLinks(b);
      }
    }
  }

  // ---------------------------------------------------------------------------
  // Note nodes follow the storage traversal
  // ---------------------------------------------------------------------------

  /** The note triples of the note nodes among `nodes`, in order. */
  function NoteRefsOf(nodes: seq<GraphNode>): seq<NoteRef>
  {
    if nodes == [] then []
    else
      var n := nodes[|nodes| - 1];
      NoteRefsOf(nodes[..|nodes| - 1]) + if n.NoteNode? then [NoteRef(n.oberkategorie, n.unterkategorie, n.thema)] else []
  }

  lemma {:induction false} NoteRefsOfConcat(a: seq<GraphNode>, b: seq<GraphNode>)
    ensures NoteRefsOf(a + b) == NoteRefsOf(a) + NoteRefsOf(b)
    decreases |b|
  {
    if b == [] {
      assert a + b == a;
    } else {
      var init := b[..|b| - 1];
      NoteRefsOfConcat(a, init);
      assert (a + b)[..|a + b| - 1] == a + init;
    }
  }

  lemma {:induction false} NoteNodesRefs(t: Tree, c: string, s: string, ns: seq<string>)
    ensures NoteRefsOf(NoteNodes(t, c, s, ns)) == NoteRefs(c, s, ns)
  {
    if ns != [] {
      var init := ns[..|ns| - 1];
      NoteNodesRefs(t, c, s, init);
      NoteRefsOfConcat(NoteNodes(t, c, s, init), [NoteNodeOf(t, c, s, ns[|ns| - 1])]);
      assert [NoteNodeOf(t, c, s, ns[|ns| - 1])][..0] == [];
    }
  }

  lemma NoteRefsOfOther(a: seq<GraphNode>, n: GraphNode)
    requires !n.NoteNode?
    ensures NoteRefsOf(a + [n]) == NoteRefsOf(a)
  {
    assert (a + [n])[..|a|] == a;
  }

  lemma {:induction false} SubNodesRefs(t: Tree, c: string, ss: seq<string>)
    ensures NoteRefsOf(SubNodes(t, c, ss)) == SubRefs(t, c, ss)
  {
    if ss != [] {
      var init := ss[..|ss| - 1];
      var s := ss[|ss| - 1];
      var u := UnterNode(UnterId(c, s), s, OberId(c));
      var below := NoteNodes(t, c, s, Notes(t, c, s));
      calc {
        NoteRefsOf(SubNodes(t, c, ss));
        NoteRefsOf(SubNodes(t, c, init) + [u] + below);
        { NoteRefsOfConcat(SubNodes(t, c, init) + [u], below); }
        NoteRefsOf(SubNodes(t, c, init) + [u]) + NoteRefsOf(below);
        { NoteRefsOfOther(SubNodes(t, c, init), u); }
        NoteRefsOf(SubNodes(t, c, init)) + NoteRefsOf(below);
        { SubNodesRefs(t, c, init); NoteNodesRefs(t, c, s, Notes(t, c, s)); }
        SubRefs(t, c, init) + NoteRefs(c, s, Notes(t, c, s));
      }
    }
  }

  lemma {:induction false} CatNodesRefs(t: Tree, cs: seq<string>)
    ensures NoteRefsOf(CatNodes(t, cs)) == CatRefs(t, cs)
  {
    if cs != [] {
      var init := cs[..|cs| - 1];
      var c := cs[|cs| - 1];
      var o := OberNode(OberId(c), c);
      var below := SubNodes(t, c, Unterkategorien(t, c));
      calc {
        NoteRefsOf(CatNodes(t, cs));
        NoteRefsOf(CatNodes(t, init) + [o] + below);
        { NoteRefsOfConcat(CatNodes(t, init) + [o], below); }
        NoteRefsOf(CatNodes(t, init) + [o]) + NoteRefsOf(below);
        { NoteRefsOfOther(CatNodes(t, init), o); }
        NoteRefsOf(CatNodes(t, init)) + NoteRefsOf(below);
        { CatNodesRefs(t, init); SubNodesRefs(t, c, Unterkategorien(t, c)); }
        CatRefs(t, init) + SubRefs(t, c, Unterkategorien(t, c));
      }
    }
  }

  /** The note nodes come in the order of getAllNotes, one per note. */
  lemma NoteNodesFollowTraversal(t: Tree)
    ensures NoteRefsOf(Nodes(t)) == AllNotes(t)
  {
    CatNodesRefs(t, Oberkategorien(t));
  }

  // ---------------------------------------------------------------------------
  // Hierarchy links: one per subcategory and one per note, before every backlink
  // ---------------------------------------------------------------------------

  lemma {:induction false} NoteNodesHierarchy(t: Tree, c: string, s: string, ns: seq<string>)
    ensures |HierarchyLinks(NoteNodes(t, c, s, ns))| == |ns|
    ensures forall l :: l in HierarchyLinks(NoteNodes(t, c, s, ns)) ==> l.source == UnterId(c, s)
  {
    if ns != [] {
      NoteNodesHierarchy(t, c, s, ns[..|ns| - 1]);
      HierarchyAppend(NoteNodes(t, c, s, ns[..|ns| - 1]), NoteNodeOf(t, c, s, ns[|ns| - 1]));
    }
  }

  lemma {:induction false} SubNodesHierarchy(t: Tree, c: string, ss: seq<string>)
    ensures |HierarchyLinks(SubNodes(t, c, ss))| == |ss| + NoteCount(t, c, ss)
  {
    if ss != [] {
      var init := ss[..|ss| - 1];
      var s := ss[|ss| - 1];
      var u := UnterNode(UnterId(c, s), s, OberId(c));
      SubNodesHierarchy(t, c, init);
      NoteNodesHierarchy(t, c, s, Notes(t, c, s));
      HierarchyConcat(SubNodes(t, c, init) + [u], NoteNodes(t, c, s, Notes(t, c, s)));
      HierarchyAppend(SubNodes(t, c, init), u);
    }
  }

  lemma {:induction false} CatNodesHierarchy(t: Tree, cs: seq<string>)
    ensures |HierarchyLinks(CatNodes(t, cs))| == SubCount(t, cs) + |CatRefs(t, cs)|
  {
    if cs != [] {
      var init := cs[..|cs| - 1];
      var c := cs[|cs| - 1];
      var o := OberNode(OberId(c), c);
      CatNodesHierarchy(t, init);
      SubNodesHierarchy(t, c, Unterkategorien(t, c));
      NoteCountIsLength(t, c, Unterkategorien(t, c));
      HierarchyConcat(CatNodes(t, init) + [o], SubNodes(t, c, Unterkategorien(t, c)));
      HierarchyAppend(CatNodes(t, init), o);
    }
  }

  lemma {:induction false} HierarchyKinds(nodes: seq<GraphNode>)
    ensures forall l :: l in HierarchyLinks(nodes) ==> l.kind == Hierarchy
  {
    if nodes != [] {
      HierarchyKinds(nodes[..|nodes| - 1]);
    }
  }

  /** There is one hierarchy link per subcategory and one per note. */
  lemma HierarchyLinkCount(t: Tree)
    ensures |HierarchyLinks(Nodes(t))| == SubCount(t, Oberkategorien(t)) + |AllNotes(t)|
  {
    CatNodesHierarchy(t, Oberkategorien(t));
  }

  lemma KindsSplit(h: seq<GraphLink>, b: seq<GraphLink>)
    requires forall l :: l in h ==> l.kind == Hierarchy
    requires forall l :: l in b ==> l.kind == Backlink
    ensures forall k :: 0 <= k < |h + b| ==> ((h + b)[k].kind == Hierarchy <==> k < |h|)
  {
    forall k | 0 <= k < |h + b|
      ensures (h + b)[k].kind == Hierarchy <==> k < |h|
    {
      if k < |h| {
        assert (h + b)[k] == h[k] && h[k] in h;
      } else {
        assert (h + b)[k] == b[k - |h|] && b[k - |h|] in b;
      }
    }
  }

  /** Every hierarchy link comes before every backlink. */
  lemma HierarchyLinksFirst(t: Tree)
    ensures forall k :: 0 <= k < |GraphLinks(t)| ==> (GraphLinks(t)[k].kind == Hierarchy <==> k < |HierarchyLinks(Nodes(t))|)
  {
    var nodes := Nodes(t);
    HierarchyKinds(nodes);
    BacklinkKinds(nodes, TitleIndex(nodes));
    KindsSplit(HierarchyLinks(nodes), BacklinkLinks(nodes, TitleIndex(nodes)));
  }

  // ---------------------------------------------------------------------------
  // The title index: the last note with a title wins
  // ---------------------------------------------------------------------------

  /** `nodes[k]` is a note node whose lower-cased title is `key`. */
  predicate HasTitleKey(nodes: seq<GraphNode>, k: int, key: string)
  {
    0 <= k < |nodes| && nodes[k].NoteNode? && Lower(nodes[k].thema) == key
  }

  /** `nodes[k]` is the last note node whose lower-cased title is `key`. */
  predicate LastWithKey(nodes: seq<GraphNode>, k: int, key: string)
  {
    HasTitleKey(nodes, k, key) && forall k' :: k < k' < |nodes| ==> !HasTitleKey(nodes, k', key)
  }

  /** The index holds a key exactly for the titles of note nodes, mapped to the LAST note with that title. */
  lemma TitleIndexLastWins(nodes: seq<GraphNode>, key: string)
    ensures key in TitleIndex(nodes) <==> exists k :: HasTitleKey(nodes, k, key)
    ensures key in TitleIndex(nodes) ==> exists k :: LastWithKey(nodes, k, key) && TitleIndex(nodes)[key] == nodes[k]
  {
    TitleIndexKeys(nodes, key);
    if key in TitleIndex(nodes) {
      TitleIndexLast(nodes, key);
    }
  }

  lemma {:induction false} TitleIndexKeys(nodes: seq<GraphNode>, key: string)
    ensures key in TitleIndex(nodes) <==> exists k :: HasTitleKey(nodes, k, key)
  {
    if nodes != [] {
      var init := nodes[..|nodes| - 1];
      var n := nodes[|nodes| - 1];
      TitleIndexKeys(init, key);
      if exists k :: HasTitleKey(nodes, k, key) {
        var k :| HasTitleKey(nodes, k, key);
        if k < |init| {
          assert init[k] == nodes[k];
          assert HasTitleKey(init, k, key);
        }
      }
      if key in TitleIndex(init) {
        var k :| HasTitleKey(init, k, key);
        assert nodes[k] == init[k];
        assert HasTitleKey(nodes, k, key);
      }
      if n.NoteNode? && Lower(n.thema) == key {
        assert HasTitleKey(nodes, |nodes| - 1, key);
      }
    }
  }

  lemma {:induction false} TitleIndexLast(nodes: seq<GraphNode>, key: string)
    requires key in TitleIndex(nodes)
    ensures exists k :: LastWithKey(nodes, k, key) && TitleIndex(nodes)[key] == nodes[k]
  {
    var init := nodes[..|nodes| - 1];
    var n := nodes[|nodes| - 1];
    if n.NoteNode? && Lower(n.thema) == key {
      assert LastWithKey(nodes, |nodes| - 1, key);
    } else {
      assert key in TitleIndex(init) && TitleIndex(nodes)[key] == TitleIndex(init)[key];
      TitleIndexLast(init, key);
      var k :| LastWithKey(init, k, key) && TitleIndex(init)[key] == init[k];
      assert init[k] == nodes[k];
      forall k' | k < k' < |nodes|
        ensures !HasTitleKey(nodes, k', key)
      {
        if k' < |init| {
          assert init[k'] == nodes[k'];
          assert !HasTitleKey(init, k', key);
        }
      }
      assert LastWithKey(nodes, k, key);
    }
  }

  /** Every node in the index is one of the nodes. */
  lemma TitleIndexValues(nodes: seq<GraphNode>, key: string)
    requires key in TitleIndex(nodes)
    ensures TitleIndex(nodes)[key] in nodes && TitleIndex(nodes)[key].NoteNode?
  {
    TitleIndexLastWins(nodes, key);
  }

  // ---------------------------------------------------------------------------
  // Backlink edges
  // ---------------------------------------------------------------------------

  /** A link name of `n` resolves to another node with id `target`. */
  predicate Resolves(n: GraphNode, b: string, idx: map<string, GraphNode>, target: string)
  {
    Lower(b) in idx && idx[Lower(b)].id == target && target != n.id
  }

  lemma {:induction false} LinksFromMembers(n: GraphNode, bls: seq<string>, idx: map<string, GraphNode>, l: GraphLink)
    ensures l in LinksFrom(n, bls, idx) <==>
      l.kind == Backlink && l.source == n.id && exists b :: b in bls && Resolves(n, b, idx, l.target)
  {
    if bls != [] {
      var init := bls[..|bls| - 1];
      var b := bls[|bls| - 1];
      LinksFromMembers(n, init, idx, l);
      assert bls == init + [b];
      assert forall b' :: b' in bls <==> b' in init || b' == b;
      if l.kind == Backlink && l.source == n.id && Resolves(n, b, idx, l.target) {
        assert l == GraphLink(n.id, idx[Lower(b)].id, Backlink);
      }
    }
  }

  /** One link name gives at most one edge. */
  lemma {:induction false} LinksFromLength(n: GraphNode, bls: seq<string>, idx: map<string, GraphNode>)
    ensures |LinksFrom(n, bls, idx)| <= |bls|
  {
    if bls != [] {
      LinksFromLength(n, bls[..|bls| - 1], idx);
    }
  }

  lemma BacklinkLinksMembers(nodes: seq<GraphNode>, idx: map<string, GraphNode>, l: GraphLink)
    ensures l in BacklinkLinks(nodes, idx) <==>
      l.kind == Backlink &&
      exists k, b :: 0 <= k < |nodes| && nodes[k].NoteNode? && nodes[k].id == l.source &&
        b in nodes[k].backlinks && Resolves(nodes[k], b, idx, l.target)
  {
    if l in BacklinkLinks(nodes, idx) {
      BacklinkLinksSound(nodes, idx, l);
    }
    if l.kind == Backlink &&
      exists k, b :: 0 <= k < |nodes| && nodes[k].NoteNode? && nodes[k].id == l.source &&
        b in nodes[k].backlinks && Resolves(nodes[k], b, idx, l.target) {
      var k, b :| 0 <= k < |nodes| && nodes[k].NoteNode? && nodes[k].id == l.source &&
        b in nodes[k].backlinks && Resolves(nodes[k], b, idx, l.target);
      BacklinkLinksComplete(nodes, idx, l, k, b);
    }
  }

  lemma {:induction false} BacklinkLinksSound(nodes: seq<GraphNode>, idx: map<string, GraphNode>, l: GraphLink)
    requires l in BacklinkLinks(nodes, idx)
    ensures l.kind == Backlink
    ensures exists k, b :: 0 <= k < |nodes| && nodes[k].NoteNode? && nodes[k].id == l.source &&
                         b in nodes[k].backlinks && Resolves(nodes[k], b, idx, l.target)
  {
    var init := nodes[..|nodes| - 1];
    var n := nodes[|nodes| - 1];
    if l in BacklinkLinks(init, idx) {
      BacklinkLinksSound(init, idx, l);
      var k, b :| 0 <= k < |init| && init[k].NoteNode? && init[k].id == l.source &&
        b in init[k].backlinks && Resolves(init[k], b, idx, l.target);
      assert nodes[k] == init[k];
    } else {
      assert n.NoteNode? && l in LinksFrom(n, n.backlinks, idx);
      LinksFromMembers(n, n.backlinks, idx, l);
      var b :| b in n.backlinks && Resolves(n, b, idx, l.target);
      assert nodes[|nodes| - 1] == n;
    }
  }

  lemma {:induction false} BacklinkLinksComplete(nodes: seq<GraphNode>, idx: map<string, GraphNode>, l: GraphLink, k: nat, b: string)
    requires l.kind == Backlink && k < |nodes| && nodes[k].NoteNode? && nodes[k].id == l.source
    requires b in nodes[k].backlinks && Resolves(nodes[k], b, idx, l.target)
    ensures l in BacklinkLinks(nodes, idx)
  {
    var init := nodes[..|nodes| - 1];
    var n := nodes[|nodes| - 1];
    if k == |nodes| - 1 {
      LinksFromMembers(n, n.backlinks, idx, l);
    } else {
      assert init[k] == nodes[k];
      BacklinkLinksComplete(init, idx, l, k, b);
    }
  }

  lemma BacklinkKinds(nodes: seq<GraphNode>, idx: map<string, GraphNode>)
    ensures forall l :: l in BacklinkLinks(nodes, idx) ==> l.kind == Backlink
  {
    forall l | l in BacklinkLinks(nodes, idx)
      ensures l.kind == Backlink
    {
      BacklinkLinksMembers(nodes, idx, l);
    }
  }

  /**
   * A backlink edge exists exactly when some note node has a link name that the
   * title index resolves to a node with another id; self-links and unresolved
   * names give no edge.
   */
  lemma BacklinkEdgeIff(t: Tree, source: string, target: string)
    ensures var nodes := Nodes(t);
      GraphLink(source, target, Backlink) in GraphLinks(t) <==>
      exists k, b :: 0 <= k < |nodes| && nodes[k].NoteNode? && nodes[k].id == source &&
        b in nodes[k].backlinks && Resolves(nodes[k], b, TitleIndex(nodes), target)
  {
    var nodes := Nodes(t);
    HierarchyKinds(nodes);
    BacklinkLinksMembers(nodes, TitleIndex(nodes), GraphLink(source, target, Backlink));
    assert GraphLinks(t) == HierarchyLinks(nodes) + BacklinkLinks(nodes, TitleIndex(nodes));
  }

  /**
   * Link names that differ only in case are both kept, so a note whose text is
   * `[[A]][[a]]` gets two identical edges to the note titled `a`.
   */
  lemma CaseVariantsGiveTwoEdges(n: GraphNode, idx: map<string, GraphNode>)
    requires n.NoteNode? && n.backlinks == Backlinks("[[A]][[a]]")
    requires "a" in idx && idx["a"].id != n.id
    ensures LinksFrom(n, n.backlinks, idx) ==
      [GraphLink(n.id, idx["a"].id, Backlink), GraphLink(n.id, idx["a"].id, Backlink)]
  {
    CaseVariantsKept();
    EdgesOfCaseVariants(n, idx);
  }

  lemma EdgesOfCaseVariants(n: GraphNode, idx: map<string, GraphNode>)
    requires n.NoteNode? && n.backlinks == ["A", "a"]
    requires "a" in idx && idx["a"].id != n.id
    ensures LinksFrom(n, n.backlinks, idx) ==
      [GraphLink(n.id, idx["a"].id, Backlink), GraphLink(n.id, idx["a"].id, Backlink)]
  {
    var e := GraphLink(n.id, idx["a"].id, Backlink);
    LowerLetter('A');
    LowerLetter('a');
    assert EdgeFor(n, "A", idx) == [e] && EdgeFor(n, "a", idx) == [e];
    LinksFromPair(n, "A", "a", idx);
  }

  lemma LowerLetter(c: char)
    requires 'A' <= c <= 'Z' || 'a' <= c <= 'z'
    ensures Lower([c]) == [LowerChar(c)]
  {
  }

  lemma LinksFromPair(n: GraphNode, x: string, y: string, idx: map<string, GraphNode>)
    ensures LinksFrom(n, [x, y], idx) == EdgeFor(n, x, idx) + EdgeFor(n, y, idx)
  {
    assert LinksFrom(n, [x], idx) == EdgeFor(n, x, idx) by {
      assert [x][..0] == [];
    }
    assert [x, y][..1] == [x];
  }

  // ---------------------------------------------------------------------------
  // Every link connects two nodes
  // ---------------------------------------------------------------------------

  function Ids(nodes: seq<GraphNode>): set<string>
  {
    if nodes == [] then {} else Ids(nodes[..|nodes| - 1]) + {nodes[|nodes| - 1].id}
  }

  lemma {:induction false} IdsMembers(nodes: seq<GraphNode>, n: GraphNode)
    requires n in nodes
    ensures n.id in Ids(nodes)
  {
    var init := nodes[..|nodes| - 1];
    if n != nodes[|nodes| - 1] {
      assert n in init;
      IdsMembers(init, n);
    }
  }

  lemma {:induction false} IdsConcat(a: seq<GraphNode>, b: seq<GraphNode>)
    ensures Ids(a + b) == Ids(a) + Ids(b)
    decreases |b|
  {
    if b == [] {
      assert a + b == a;
    } else {
      IdsConcat(a, b[..|b| - 1]);
      assert (a + b)[..|a + b| - 1] == a + b[..|b| - 1];
    }
  }

  /** Every hierarchy link of `nodes` ends at a node of `nodes`. */
  lemma {:induction false} HierarchyTargets(nodes: seq<GraphNode>)
    ensures forall l :: l in HierarchyLinks(nodes) ==> l.target in Ids(nodes)
  {
    if nodes != [] {
      HierarchyTargets(nodes[..|nodes| - 1]);
    }
  }

  lemma {:induction false} SubNodesSources(t: Tree, c: string, ss: seq<string>)
    ensures forall l :: l in HierarchyLinks(SubNodes(t, c, ss)) ==> l.source in Ids(SubNodes(t, c, ss)) + {OberId(c)}
  {
    if ss != [] {
      var init := ss[..|ss| - 1];
      var s := ss[|ss| - 1];
      var u := UnterNode(UnterId(c, s), s, OberId(c));
      var notes := NoteNodes(t, c, s, Notes(t, c, s));
      assert SubNodes(t, c, ss) == SubNodes(t, c, init) + [u] + notes;
      SubNodesSources(t, c, init);
      NoteNodesHierarchy(t, c, s, Notes(t, c, s));
      SubtreeSources(SubNodes(t, c, init), u, notes);
    }
  }

  /** Appending a subcategory node and the note nodes below it keeps every hierarchy link's source known. */
  lemma SubtreeSources(before: seq<GraphNode>, u: GraphNode, notes: seq<GraphNode>)
    requires u.UnterNode?
    requires forall l :: l in HierarchyLinks(before) ==> l.source in Ids(before) + {u.parent}
    requires forall l :: l in HierarchyLinks(notes) ==> l.source == u.id
    ensures forall l :: l in HierarchyLinks(before + [u] + notes) ==> l.source in Ids(before + [u] + notes) + {u.parent}
  {
    var a := before + [u];
    HierarchyConcat(a, notes);
    HierarchyAppend(before, u);
    IdsConcat(a, notes);
    IdsConcat(before, [u]);
    assert [u][..0] == [];
  }

  lemma {:induction false} CatNodesSources(t: Tree, cs: seq<string>)
    ensures forall l :: l in HierarchyLinks(CatNodes(t, cs)) ==> l.source in Ids(CatNodes(t, cs))
  {
    if cs != [] {
      var init := cs[..|cs| - 1];
      var c := cs[|cs| - 1];
      var o := OberNode(OberId(c), c);
      var a := CatNodes(t, init) + [o];
      CatNodesSources(t, init);
      SubNodesSources(t, c, Unterkategorien(t, c));
      HierarchyConcat(a, SubNodes(t, c, Unterkategorien(t, c)));
      HierarchyAppend(CatNodes(t, init), o);
      IdsConcat(a, SubNodes(t, c, Unterkategorien(t, c)));
      IdsConcat(CatNodes(t, init), [o]);
      assert [o][..0] == [];
    }
  }

  /** Every link's source and target is the id of a node of the graph. */
  lemma LinkEndpointsAreNodes(t: Tree, l: GraphLink)
    requires l in GraphLinks(t)
    ensures l.source in Ids(Nodes(t)) && l.target in Ids(Nodes(t))
  {
    var nodes := Nodes(t);
    var idx := TitleIndex(nodes);
    if l in HierarchyLinks(nodes) {
      HierarchyTargets(nodes);
      CatNodesSources(t, Oberkategorien(t));
    } else {
      assert l in BacklinkLinks(nodes, idx);
      BacklinkLinksMembers(nodes, idx, l);
      var k, b :| 0 <= k < |nodes| && nodes[k].NoteNode? && nodes[k].id == l.source &&
        b in nodes[k].backlinks && Resolves(nodes[k], b, idx, l.target);
      IdsMembers(nodes, nodes[k]);
      TitleIndexValues(nodes, Lower(b));
      IdsMembers(nodes, idx[Lower(b)]);
    }
  }
}
