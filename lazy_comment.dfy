/** The comment pass of lazy-comment.go over a syntax tree in the heap. */
module LazyComment {
  import opened Ast
  import opened Keys
  import opened Ledger
  import opened Pass
  import opened Properties

  /** `Visit(n, visits)`: records the key of a function declaration, or of the
      first value spec of a general declaration, and leaves the ledger alone
      for every other node. Go increments the map it is given and returns it;
      here the map is a value and the updated one is returned. */
  method Visit(n: Node?, visits: Visits) returns (updated: Visits)
    requires n != null ==> n.Valid()
    ensures n == null ==> updated == visits
    ensures n != null ==> updated == RecordKey(visits, VisitKey(n.kind, Kinds(n.Skeleton().children)))
  {
    if n == null {
      return visits;
    }
    updated := visits;
    match n.kind {
      case FuncDecl(name, pos) =>
        var key := Key(name, pos);
        updated := Record(updated, key);
        return;
      case GenDecl(pos) =>
        ghost var specs := Kinds(n.Skeleton().children);
        var i := 0;
        while i < |n.children|
          invariant 0 <= i <= |n.children|
          invariant FirstValueKey(specs, pos) == FirstValueKey(specs[i..], pos)
          invariant updated == visits
        {
          assert specs[i] == n.children[i].kind;
          FirstValueKeyFrom(specs, pos, i);
          match n.children[i].kind {
            case ValueSpec(names) =>
              // the loop over the spec's names returns on its first name
              var key := Key(names[0], pos);
              updated := Record(updated, key);
              return;
            case _ =>
          }
          i := i + 1;
        }
        assert specs[i..] == [];
      case _ =>
    }
  }

  /** `Visitor`: the ledger the nested walks share. Go copies the struct by
      value, but every copy holds the same map, so one object models them all. */
  class Visitor {
    var visits: Visits

    constructor (visits: Visits)
      ensures this.visits == visits
    {
      this.visits := visits;
    }

    /** `Visitor.Visit`: records `node` in the ledger; it never stops a walk. */
    method Visit(node: Node?) returns (w: Visitor)
      requires node != null ==> node.Valid()
      modifies this
      ensures w == this
      ensures node == null ==> visits == old(visits)
      ensures node != null ==> visits == RecordKey(old(visits), VisitKey(node.kind, Kinds(node.Skeleton().children)))
    {
      if node == null {
        return this;
      }
      var updated := _default.Visit(node, visits);
      visits := updated;
      return this;
    }
  }

  /** `ast.Walk(v, n)`: Visit on `n`, a walk of each child with the visitor
      Visit returned, then Visit on nil. */
  method Walk(v: Visitor, n: Node)
    requires n.Valid()
    modifies v
    ensures v.visits == RecordAll(old(v.visits), WalkKeys(n.Skeleton()))
    decreases n.Repr
  {
    ghost var t := n.Skeleton();
    ghost var own := KeyList(VisitKey(t.kind, Kinds(t.children)));
    var w := v.Visit(n);
    for i := 0 to |n.children|
      invariant w == v
      invariant v.visits == RecordAll(old(v.visits), own + WalkKeysList(t.children[..i]))
    {
      Walk(w, n.children[i]);
      WalkStep(old(v.visits), own, t.children, i);
    }
    assert t.children[..|n.children|] == t.children;
    w := w.Visit(null);
  }

  /** `FindComment(node, file, visits, defaultComment)`: gives a function
      declaration, or the specs of a general declaration, their placeholder
      Doc, or clears it once the ledger counts the key more than twice. */
  method FindComment(node: Node, visits: Visits, dflt: string)
    requires node.Valid()
    modifies node, node.children
    ensures node.Abs() == Found(old(node.Abs()), visits, dflt)
  {
    ghost var t := node.Abs();
    ghost var docs := SpecDocs(node.kind, node.doc, t.children, visits, dflt);
    match node.kind {
      case FuncDecl(name, pos) =>
        if IsExported(name) && TextEmpty(node.doc) {
          node.doc := Some(FuncComment(name, pos, dflt));
        }
        var key := Key(name, pos);
        if Count(visits, key) > 2 {
          node.doc := Cleared();
        }
        AbsAfterDocs(node, docs);
      case GenDecl(pos) =>
        FindSpecComments(node, visits, dflt);
        AbsAfterDocs(node, docs);
      case _ =>
        AbsAfterDocs(node, docs);
    }
  }

  /** The loop of FindComment over the specs of a general declaration. */
  method FindSpecComments(node: Node, visits: Visits, dflt: string)
    requires node.Valid() && node.kind.GenDecl?
    modifies node.children
    ensures forall j :: 0 <= j < |node.children| ==>
      node.children[j].doc == SpecDoc(node.children[j].kind, old(node.children[j].doc), old(node.doc), node.kind.pos, visits, dflt)
  {
    var pos := node.kind.pos;
    var groupDoc := node.doc;
    for i := 0 to |node.children|
      invariant forall j :: 0 <= j < i ==> node.children[j].doc == SpecDoc(node.children[j].kind, old(node.children[j].doc), groupDoc, pos, visits, dflt)
      invariant forall j :: i <= j < |node.children| ==> node.children[j].doc == old(node.children[j].doc)
    {
      var spec := node.children[i];
      match spec.kind {
        case TypeSpec(name) =>
          if IsExported(name) && TextEmpty(groupDoc) {
            spec.doc := Some(TypeComment(name, pos, dflt));
          }
          if Count(visits, name) > 2 {
            spec.doc := Cleared();
          }
        case ValueSpec(names) =>
          if TextEmpty(groupDoc) {
            spec.doc := Some(FuncComment(names[0], pos, dflt));
            var key := Key(names[0], pos);
            if Count(visits, key) > 2 {
              spec.doc := Cleared();
            }
          }
        case _ =>
      }
    }
  }

  /** The callback the per-file loop hands to `ast.Inspect`, on a non-nil
      node: a fresh walk of the node's subtree with the shared visitor, then
      FindComment on the node with the ledger as the walk left it. */
  method Callback(n: Node, v: Visitor, dflt: string)
    requires n.Valid()
    modifies n, n.children, v
    ensures v.visits == RecordAll(old(v.visits), WalkKeys(old(n.Abs())))
    ensures n.Abs() == Found(old(n.Abs()), v.visits, dflt)
  {
    ghost var t := n.Abs();
    Walk(v, n);
    SkeletonIsStrip(n);
    WalkKeysStrip(t);
    AbsFrame(n);
    FindComment(n, v.visits, dflt);
  }

  /** `ast.Inspect(n, f)` with the callback of the per-file loop: on each node,
      a fresh walk of the node's subtree records keys in the shared ledger,
      FindComment updates Docs from the ledger, and the node's comment groups
      are collected (its Doc before its children's groups, its line comment
      after); then the children are inspected in order. */
  method Inspect(n: Node, v: Visitor, dflt: string, comments: seq<CommentGroup>) returns (collected: seq<CommentGroup>)
    requires n.Valid()
    modifies n.Repr, v
    ensures var p := InspectNode(old(n.Abs()), old(n.doc), old(v.visits), dflt);
            n.Abs() == p.tree && v.visits == p.visits && collected == comments + p.groups
    decreases n.Repr, 3
  {
    ghost var t := n.Abs();
    ghost var before := v.visits;
    ghost var walked := RecordAll(before, WalkKeys(t));
    ghost var docs := SpecDocs(t.kind, t.doc, t.children, walked, dflt);
    Callback(n, v, dflt);
    ghost var own := n.doc;
    assert own == OwnDoc(t.kind, t.doc, walked, dflt);
    AbsChildren(n);
    assert forall j :: 0 <= j < |n.children| ==> n.children[j].Abs() == t.children[j].(doc := docs[j]);
    collected := comments + DocGroups(n.doc);
    collected := InspectAll(n, v, dflt, t.children, docs, collected);
    collected := collected + DocGroups(n.line);
    ghost var rest := InspectList(t.children, docs, walked, dflt);
    AbsOfChildren(n, rest.trees);
    AppendAssoc(comments, DocGroups(own), rest.groups);
    AppendAssoc(comments, DocGroups(own) + rest.groups, DocGroups(t.line));
    assert InspectNode(t, t.doc, before, dflt)
        == Outcome(Tree(t.kind, own, t.line, rest.trees), rest.visits, DocGroups(own) + rest.groups + DocGroups(t.line));
  }

  /** Inspect on child `i` of `n`, which holds the subtree `t` with Doc
      `doc`; only child `i`'s subtree changes. */
  method InspectChild(n: Node, i: nat, v: Visitor, dflt: string, ghost t: Tree, ghost doc: Doc, comments: seq<CommentGroup>)
    returns (collected: seq<CommentGroup>)
    requires n.Valid() && i < |n.children|
    requires n.children[i].Abs() == t.(doc := doc)
    modifies n.children[i].Repr, v
    ensures n.doc == old(n.doc)
    ensures var p := InspectNode(t, doc, old(v.visits), dflt);
            && n.children[i].Abs() == p.tree
            && v.visits == p.visits && collected == comments + p.groups
    ensures forall j :: 0 <= j < |n.children| && j != i ==> n.children[j].Abs() == old(n.children[j].Abs())
    decreases n.Repr, 0
  {
    InspectIgnoresDoc(t, doc, doc, v.visits, dflt);
    collected := Inspect(n.children[i], v, dflt, comments);
    SiblingsFrame(n, i);
  }

  /** Inspect on every child of `n` in order; child `j` holds the subtree
      `ts[j]` with Doc `docs[j]` when the first starts. */
  method InspectAll(n: Node, v: Visitor, dflt: string, ghost ts: seq<Tree>, ghost docs: seq<Doc>, comments: seq<CommentGroup>)
    returns (collected: seq<CommentGroup>)
    requires n.Valid()
    requires |ts| == |docs| == |n.children|
    requires forall j :: 0 <= j < |n.children| ==> n.children[j].Abs() == ts[j].(doc := docs[j])
    modifies n.Repr - {n}, v
    ensures n.doc == old(n.doc)
    ensures var r := InspectList(ts, docs, old(v.visits), dflt);
            && v.visits == r.visits
            && collected == comments + r.groups
            && (forall j :: 0 <= j < |n.children| ==> n.children[j].Abs() == r.trees[j])
    decreases n.Repr, 2
  {
    collected := InspectChildren(n, |n.children|, v, dflt, ts, docs, comments);
    assert ts[..|n.children|] == ts && docs[..|n.children|] == docs;
  }

  /** Inspect on the first `k` children of `n` in order; child `j` holds the
      subtree `ts[j]` with Doc `docs[j]` when the first starts. */
  method InspectChildren(n: Node, k: nat, v: Visitor, dflt: string, ghost ts: seq<Tree>, ghost docs: seq<Doc>, comments: seq<CommentGroup>)
    returns (collected: seq<CommentGroup>)
    requires n.Valid()
    requires |ts| == |docs| == |n.children| && k <= |n.children|
    requires forall j :: 0 <= j < |n.children| ==> n.children[j].Abs() == ts[j].(doc := docs[j])
    modifies n.Repr - {n}, v
    ensures n.doc == old(n.doc)
    ensures var r := InspectList(ts[..k], docs[..k], old(v.visits), dflt);
            && v.visits == r.visits
            && collected == comments + r.groups
            && (forall j :: 0 <= j < k ==> n.children[j].Abs() == r.trees[j])
    ensures forall j :: k <= j < |n.children| ==> n.children[j].Abs() == old(n.children[j].Abs())
    decreases n.Repr, 1, k
  {
    if k == 0 {
      return comments;
    }
    ghost var p := InspectList(ts[..k - 1], docs[..k - 1], v.visits, dflt);
    collected := InspectChildren(n, k - 1, v, dflt, ts, docs, comments);
    ghost var q := InspectNode(ts[k - 1], docs[k - 1], p.visits, dflt);
    collected := InspectChild(n, k - 1, v, dflt, ts[k - 1], docs[k - 1], collected);
    assert collected == comments + (p.groups + q.groups) by {
      AppendAssoc(comments, p.groups, q.groups);
    }
    assert Outcomes(p.trees + [q.tree], q.visits, p.groups + q.groups) == InspectList(ts[..k], docs[..k], old(v.visits), dflt) by {
      InspectListStep(ts, docs, old(v.visits), dflt, k - 1);
    }
    forall j | 0 <= j < k
      ensures n.children[j].Abs() == (p.trees + [q.tree])[j]
    {
      if j < k - 1 {
        assert (p.trees + [q.tree])[j] == p.trees[j];
      }
    }
  }

  /** An `ast.File`: the root of its syntax tree and its `Comments` list. */
  class File {
    const root: Node
    var comments: seq<CommentGroup>

    constructor (root: Node, comments: seq<CommentGroup>)
      ensures this.root == root && this.comments == comments
    {
      this.root := root;
      this.comments := comments;
    }
  }

  /** The body of the per-file loop of LazyCommenter: a fresh ledger and an
      empty list, Inspect with the callback from the root, then the collected
      groups become `file.Comments`. The file's comments are then its comment
      groups in pre-order, and under distinct keys its tree is the one
      Expected computes by depth. */
  method CommentFile(file: File, dflt: string)
    requires file.root.Valid()
    modifies file, file.root.Repr
    ensures var r := CommentPass(old(file.root.Abs()), dflt);
            file.root.Abs() == r.tree && file.comments == r.groups
    ensures file.comments == Groups(file.root.Abs())
    ensures DistinctKeys(old(file.root.Abs())) ==> file.root.Abs() == Expected(old(file.root.Abs()), old(file.root.doc), 0, dflt)
  {
    ghost var t := file.root.Abs();
    var visitor := new Visitor(map[]);
    var comments := [];
    comments := Inspect(file.root, visitor, dflt, comments);
    file.comments := comments;
    InspectGroups(t, t.doc, map[], dflt);
    if DistinctKeys(t) {
      CommentPassExpected(t, dflt);
    }
  }

  /** The loop of LazyCommenter over the parsed files: each file has its own
      ledger and its own list, so each ends up as if it were the only one. */
  method CommentFiles(files: seq<File>, dflt: string)
    requires forall i :: 0 <= i < |files| ==> files[i].root.Valid()
    requires forall i, j :: 0 <= i < j < |files| ==> files[i] != files[j] && files[i].root.Repr !! files[j].root.Repr
    modifies set i | 0 <= i < |files| :: files[i]
    modifies set i, n | 0 <= i < |files| && n in files[i].root.Repr :: n
    ensures forall i :: 0 <= i < |files| ==>
      var r := CommentPass(old(files[i].root.Abs()), dflt);
      files[i].root.Abs() == r.tree && files[i].comments == r.groups
  {
    for i := 0 to |files|
      invariant forall j :: 0 <= j < i ==>
        var r := CommentPass(old(files[j].root.Abs()), dflt);
        files[j].root.Abs() == r.tree && files[j].comments == r.groups
      invariant forall j :: i <= j < |files| ==> files[j].root.Abs() == old(files[j].root.Abs())
    {
      CommentFileAt(files, i, dflt);
    }
  }

  /** One turn of the loop over the files: file `i` gets its pass, and
      every other file keeps its tree. */
  method CommentFileAt(files: seq<File>, i: nat, dflt: string)
    requires i < |files|
    requires forall j :: 0 <= j < |files| ==> files[j].root.Valid()
    requires forall j, k :: 0 <= j < k < |files| ==> files[j] != files[k] && files[j].root.Repr !! files[k].root.Repr
    modifies files[i], files[i].root.Repr
    ensures var r := CommentPass(old(files[i].root.Abs()), dflt);
            files[i].root.Abs() == r.tree && files[i].comments == r.groups
    ensures forall j :: 0 <= j < |files| && j != i ==>
      files[j].root.Abs() == old(files[j].root.Abs()) && files[j].comments == old(files[j].comments)
  {
    CommentFile(files[i], dflt);
    forall j | 0 <= j < |files| && j != i
      ensures files[j].root.Abs() == old(files[j].root.Abs())
    {
      AbsFrame(files[j].root);
    }
  }
}
