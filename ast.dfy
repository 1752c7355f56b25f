/** The part of a Go syntax tree the commenter reads and writes.

    A node's structure (its kind, name, position, children and trailing line
    comment) is what the parser produced and is never changed by the pass; its
    `Doc` comment group is the one field the pass assigns. `Tree` is the value
    of a node and everything below it at one moment. */
module Ast {

  datatype Option<T> = None | Some(value: T)

  /** One comment: its text including the `//` or `/* */` marker, and the
      position of its first slash. */
  datatype Comment = Comment(text: string, slash: int)

  datatype CommentGroup = CommentGroup(list: seq<Comment>)

  /** A Doc field: `None` is a nil pointer. */
  type Doc = Option<CommentGroup>

  /** The names of a value spec; the parser never yields an empty list. */
  type Names = s: seq<string> | |s| > 0 witness [""]

  datatype Kind =
    | FileNode
    | FuncDecl(name: string, pos: nat)
    | GenDecl(pos: nat)
    | TypeSpec(name: string)
    | ValueSpec(names: Names)
    | Other

  /** A node: its kind, its Doc, its trailing line comment (the `Comment`
      field of specs and struct fields) and its children in the order
      `ast.Walk` visits them. */
  datatype Tree = Tree(kind: Kind, doc: Doc, line: Doc, children: seq<Tree>)

  /** `ast.IsExported`, for ASCII names: the name starts with an upper-case letter. */
  predicate IsExported(name: string)
  {
    |name| > 0 && 'A' <= name[0] <= 'Z'
  }

  predicate IsSpace(c: char) {
    c == ' ' || c == '\t' || c == '\n' || c == '\r'
  }

  /** The text of one comment without its markers. */
  function Content(text: string): string {
    if |text| >= 2 && text[..2] == "//" then text[2..]
    else if |text| >= 4 && text[..2] == "/*" && text[|text| - 2..] == "*/" then text[2..|text| - 2]
    else text
  }

  /** The string holds only white space. */
  predicate Blank(s: string) {
    s == [] || (IsSpace(s[0]) && Blank(s[1..]))
  }

  /** Every comment holds only white space once its markers are removed. */
  predicate AllBlank(list: seq<Comment>)
  {
    list == [] || (Blank(Content(list[0].text)) && AllBlank(list[1..]))
  }

  /** `doc.Text() == ""`: a nil group, or a group whose comments hold only
      white space once their markers are removed. */
  predicate TextEmpty(doc: Doc)
  {
    doc.None? || AllBlank(doc.value.list)
  }

  /** A group holding one comment. */
  function Single(text: string, slash: int): CommentGroup {
    CommentGroup([Comment(text, slash)])
  }

  /** `&ast.CommentGroup{}`: a group with no comments. Its text is empty, so
      a later FindComment reads it as it reads a missing Doc. */
  function Cleared(): (d: Doc)
    ensures d.Some? && d.value.list == [] && TextEmpty(d)
  {
    Some(CommentGroup([]))
  }

  /** The comment groups of a Doc field, as `ast.Inspect` meets them. */
  function DocGroups(d: Doc): seq<CommentGroup> {
    if d.Some? then [d.value] else []
  }

  /** Every comment group of a tree, in pre-order: a node's Doc, then its
      children's groups, then its line comment. */
  function Groups(t: Tree): seq<CommentGroup> {
    DocGroups(t.doc) + GroupsList(t.children) + DocGroups(t.line)
  }

  function GroupsList(ts: seq<Tree>): seq<CommentGroup> {
    if ts == [] then [] else GroupsList(ts[..|ts| - 1]) + Groups(ts[|ts| - 1])
  }

  lemma AppendAssoc<T>(a: seq<T>, b: seq<T>, c: seq<T>)
    ensures (a + b) + c == a + (b + c)
  {
  }

  /** The structure of a tree: every Doc set to nil. */
  function Strip(t: Tree): (r: Tree)
    ensures r.kind == t.kind && r.doc == None && r.line == t.line && |r.children| == |t.children|
  {
    Tree(t.kind, None, t.line, StripAll(t.children))
  }

  function StripAll(ts: seq<Tree>): (r: seq<Tree>)
    ensures |r| == |ts|
  {
    if ts == [] then [] else StripAll(ts[..|ts| - 1]) + [Strip(ts[|ts| - 1])]
  }

  /** Tree `i` of the stripped list is tree `i` stripped. */
  lemma {:induction false} StripAllIndex(ts: seq<Tree>, i: nat)
    requires i < |ts|
    ensures StripAll(ts)[i] == Strip(ts[i])
    decreases |ts|
  {
    var n := |ts| - 1;
    if i < n {
      StripAllIndex(ts[..n], i);
    }
  }

  lemma StripAllSnoc(ts: seq<Tree>, t: Tree)
    ensures StripAll(ts + [t]) == StripAll(ts) + [Strip(t)]
  {
    assert (ts + [t])[..|ts|] == ts;
  }

  /** Stripping keeps the kinds. */
  lemma KindsOfStripAll(ts: seq<Tree>)
    ensures Kinds(StripAll(ts)) == Kinds(ts)
  {
    forall i | 0 <= i < |ts|
      ensures StripAll(ts)[i].kind == ts[i].kind
    {
      StripAllIndex(ts, i);
    }
  }

  /** The trees `ts` with their Docs replaced by `docs`. */
  function WithDocs(ts: seq<Tree>, docs: seq<Doc>): (r: seq<Tree>)
    requires |docs| == |ts|
    ensures |r| == |ts|
  {
    seq(|ts|, i requires 0 <= i < |ts| => ts[i].(doc := docs[i]))
  }

  /** Replacing Docs keeps the structure. */
  lemma StripWithDocs(ts: seq<Tree>, docs: seq<Doc>)
    requires |docs| == |ts|
    ensures StripAll(WithDocs(ts, docs)) == StripAll(ts)
  {
    forall i | 0 <= i < |ts|
      ensures StripAll(WithDocs(ts, docs))[i] == StripAll(ts)[i]
    {
      StripAllIndex(WithDocs(ts, docs), i);
      StripAllIndex(ts, i);
    }
  }

  function Kinds(ts: seq<Tree>): seq<Kind> {
    seq(|ts|, i requires 0 <= i < |ts| => ts[i].kind)
  }

  function DocsOf(ts: seq<Tree>): seq<Doc> {
    seq(|ts|, i requires 0 <= i < |ts| => ts[i].doc)
  }

  /** A node of the syntax tree in the heap. */
  class Node {
    const kind: Kind
    const line: Doc
    const children: seq<Node>
    ghost const Repr: set<Node>
    var doc: Doc

    /** The node and its descendants form a tree: every child owns a part of
        the footprint that excludes this node and every other child's part. */
    ghost predicate Valid()
      decreases Repr
    {
      && this in Repr
      && (forall i :: 0 <= i < |children| ==>
            && children[i] in Repr
            && children[i].Repr <= Repr
            && this !in children[i].Repr
            && children[i].Valid())
      && (forall i, j :: 0 <= i < j < |children| ==> children[i].Repr !! children[j].Repr)
    }

    /** The structure of the subtree rooted here, which the parser fixed. */
    ghost function Skeleton(): (t: Tree)
      requires Valid()
      ensures t.kind == kind && t.doc == None && t.line == line
      ensures |t.children| == |children|
      decreases Repr
    {
      Tree(kind, None, line, seq(|children|, i requires 0 <= i < |children| => children[i].Skeleton()))
    }

    /** The value of the subtree rooted here. */
    ghost function Abs(): (t: Tree)
      requires Valid()
      reads Repr
      ensures t.kind == kind && t.doc == doc && t.line == line
      ensures |t.children| == |children|
      decreases Repr
    {
      Tree(kind, doc, line, seq(|children|, i requires 0 <= i < |children| reads Repr => children[i].Abs()))
    }

    constructor (kind: Kind, doc: Doc, line: Doc, children: seq<Node>)
      requires forall i :: 0 <= i < |children| ==> children[i].Valid()
      requires forall i, j :: 0 <= i < j < |children| ==> children[i].Repr !! children[j].Repr
      ensures Valid()
      ensures Abs() == Tree(kind, doc, line, seq(|children|, i requires 0 <= i < |children| => old(children[i].Abs())))
    {
      this.kind := kind;
      this.doc := doc;
      this.line := line;
      this.children := children;
      this.Repr := {this} + set i, n | 0 <= i < |children| && n in children[i].Repr :: n;
    }
  }

  /** The skeleton of a node is the structure of its value. */
  lemma {:induction false} SkeletonIsStrip(n: Node)
    requires n.Valid()
    ensures n.Skeleton() == Strip(n.Abs())
    decreases n.Repr
  {
    forall i | 0 <= i < |n.children|
      ensures n.Skeleton().children[i] == Strip(n.Abs()).children[i]
    {
      SkeletonIsStrip(n.children[i]);
      StripAllIndex(n.Abs().children, i);
    }
  }

  /** A subtree none of whose nodes changed keeps its value. */
  twostate lemma AbsFrame(n: Node)
    requires n.Valid()
    requires unchanged(n.Repr)
    ensures n.Abs() == old(n.Abs())
  {
  }

  /** A call that changed only nodes below child `i` left the root's Doc and
      every other child's subtree as they were. */
  twostate lemma SiblingsFrame(n: Node, new i: nat)
    requires n.Valid() && i < |n.children|
    requires unchanged(n.Repr - n.children[i].Repr)
    ensures n.doc == old(n.doc)
    ensures forall j :: 0 <= j < |n.children| && j != i ==> n.children[j].Abs() == old(n.children[j].Abs())
  {
    forall j | 0 <= j < |n.children| && j != i
      ensures n.children[j].Abs() == old(n.children[j].Abs())
    {
      AbsFrame(n.children[j]);
    }
  }

  /** The children of a node's value are the values of its children. */
  lemma AbsChildren(n: Node)
    requires n.Valid()
    ensures forall j :: 0 <= j < |n.children| ==> n.Abs().children[j] == n.children[j].Abs()
  {
  }

  /** The value of a node is built from the values of its children. */
  lemma AbsOfChildren(n: Node, ts: seq<Tree>)
    requires n.Valid()
    requires |ts| == |n.children|
    requires forall j :: 0 <= j < |n.children| ==> n.children[j].Abs() == ts[j]
    ensures n.Abs() == Tree(n.kind, n.doc, n.line, ts)
  {
  }

  /** A subtree where only the Docs of the root and of its children changed:
      its value is the old one with those Docs replaced. */
  twostate lemma AbsAfterDocs(n: Node, new docs: seq<Doc>)
    requires n.Valid()
    requires unchanged(set i, m | 0 <= i < |n.children| && m in n.children[i].Repr - {n.children[i]} :: m)
    requires |docs| == |n.children|
    requires forall i :: 0 <= i < |n.children| ==> n.children[i].doc == docs[i]
    ensures n.Abs() == old(n.Abs()).(doc := n.doc, children := WithDocs(old(n.Abs()).children, docs))
  {
    forall i | 0 <= i < |n.children|
      ensures n.children[i].Abs() == old(n.children[i].Abs()).(doc := n.children[i].doc)
    {
      var c := n.children[i];
      forall k | 0 <= k < |c.children|
        ensures c.children[k].Abs() == old(c.children[k].Abs())
      {
        assert forall m :: m in c.children[k].Repr ==> m in n.children[i].Repr - {n.children[i]};
        AbsFrame(c.children[k]);
      }
    }
  }
}
