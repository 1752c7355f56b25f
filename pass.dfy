/** The per-file comment pass as functions on tree values.

    `ast.Inspect` calls its callback on every node in pre-order; for each node
    the callback first runs `ast.Walk` over the node's whole subtree (every
    visited declaration records its key in the ledger) and then `FindComment`
    on the node, before Inspect goes on to the node's children. InspectNode
    follows exactly that order, threading the ledger through. */
module Pass {
  import opened Ast
  import opened Keys
  import opened Ledger

  // ---------------------------------------------------------------- Visit

  /** The first name of the first value spec, if any. */
  function FirstValueName(specs: seq<Kind>): (r: Option<string>)
    ensures r.None? <==> forall i :: 0 <= i < |specs| ==> !specs[i].ValueSpec?
  {
    if specs == [] then None
    else if specs[0].ValueSpec? then Some(specs[0].names[0])
    else FirstValueName(specs[1..])
  }

  /** The key Visit records for a GenDecl: the first name of its first value
      spec, with the group's position. */
  function FirstValueKey(specs: seq<Kind>, pos: nat): (r: Option<string>)
    ensures r.None? <==> forall i :: 0 <= i < |specs| ==> !specs[i].ValueSpec?
  {
    var n := FirstValueName(specs);
    if n.Some? then Some(Key(n.value, pos)) else None
  }

  /** The key is that of the first value spec, and there is none when no
      spec is a value spec. */
  lemma {:induction false} FirstValueKeyIsFirst(specs: seq<Kind>, pos: nat)
    ensures var r := FirstValueKey(specs, pos);
      && (r.None? <==> forall i :: 0 <= i < |specs| ==> !specs[i].ValueSpec?)
      && (r.Some? ==> exists i ::
            && 0 <= i < |specs|
            && specs[i].ValueSpec?
            && (forall j :: 0 <= j < i ==> !specs[j].ValueSpec?)
            && r.value == Key(specs[i].names[0], pos))
  {
    if specs != [] && !specs[0].ValueSpec? {
      FirstValueKeyIsFirst(specs[1..], pos);
      assert forall i :: 1 <= i < |specs| ==> specs[i] == specs[1..][i - 1];
      var r := FirstValueKey(specs, pos);
      if r.Some? {
        var i :| 0 <= i < |specs[1..]| && specs[1..][i].ValueSpec?
          && (forall j :: 0 <= j < i ==> !specs[1..][j].ValueSpec?)
          && r.value == Key(specs[1..][i].names[0], pos);
        assert specs[i + 1].ValueSpec? && r.value == Key(specs[i + 1].names[0], pos);
      }
    }
  }

  /** The search for the first value spec, one spec at a time. */
  lemma FirstValueKeyFrom(specs: seq<Kind>, pos: nat, i: nat)
    requires i < |specs|
    ensures FirstValueKey(specs[i..], pos)
         == if specs[i].ValueSpec? then Some(Key(specs[i].names[0], pos)) else FirstValueKey(specs[i + 1..], pos)
  {
    assert specs[i..][1..] == specs[i + 1..];
  }

  /** The key Visit records for a node whose children have kinds `specs`, if any. */
  function VisitKey(kind: Kind, specs: seq<Kind>): Option<string> {
    match kind
    case FuncDecl(name, pos) => Some(Key(name, pos))
    case GenDecl(pos) => FirstValueKey(specs, pos)
    case _ => None
  }

  function KeyList(k: Option<string>): seq<string> {
    if k.Some? then [k.value] else []
  }

  /** The ledger after Visit on a node with this key. */
  function RecordKey(visits: Visits, k: Option<string>): (r: Visits)
    ensures r == RecordAll(visits, KeyList(k))
  {
    if k.Some? then Record(visits, k.value) else visits
  }

  /** The keys `ast.Walk(visitor, n)` records, in visiting order. */
  function WalkKeys(t: Tree): (r: seq<string>)
    ensures VisitKey(t.kind, Kinds(t.children)).Some? ==> |r| > 0 && r[0] == VisitKey(t.kind, Kinds(t.children)).value
  {
    KeyList(VisitKey(t.kind, Kinds(t.children))) + WalkKeysList(t.children)
  }

  function WalkKeysList(ts: seq<Tree>): seq<string> {
    if ts == [] then [] else WalkKeysList(ts[..|ts| - 1]) + WalkKeys(ts[|ts| - 1])
  }

  /** One more child walked: the ledger after the first `i + 1` children. */
  lemma WalkStep(visits: Visits, own: seq<string>, ts: seq<Tree>, i: nat)
    requires i < |ts|
    ensures RecordAll(RecordAll(visits, own + WalkKeysList(ts[..i])), WalkKeys(ts[i]))
         == RecordAll(visits, own + WalkKeysList(ts[..i + 1]))
  {
    var next := ts[..i + 1];
    assert next[..|next| - 1] == ts[..i];
    assert own + WalkKeysList(next) == own + WalkKeysList(ts[..i]) + WalkKeys(ts[i]);
    RecordAllAppend(visits, own + WalkKeysList(ts[..i]), WalkKeys(ts[i]));
  }

  /** The keys recorded by a walk depend only on the tree's structure. */
  lemma {:induction false} WalkKeysStrip(t: Tree)
    ensures WalkKeys(Strip(t)) == WalkKeys(t)
    decreases t, 1
  {
    KindsOfStripAll(t.children);
    WalkKeysStripList(t.children);
  }

  lemma {:induction false} WalkKeysStripList(ts: seq<Tree>)
    ensures WalkKeysList(StripAll(ts)) == WalkKeysList(ts)
    decreases ts, 0
  {
    if ts != [] {
      var n := |ts| - 1;
      assert StripAll(ts)[..n] == StripAll(ts[..n]);
      WalkKeysStripList(ts[..n]);
      WalkKeysStrip(ts[n]);
    }
  }

  // ---------------------------------------------------------- FindComment

  /** The comment synthesised for a function declaration, and for a value
      spec with its first name and the group's position: `//`, a space, the
      name, a space and the default comment. */
  function FuncComment(name: string, pos: nat, dflt: string): (g: CommentGroup)
    ensures |g.list| == 1 && g.list[0].slash == pos - 1
    ensures |g.list[0].text| >= 2 && g.list[0].text[..2] == "//" && Content(g.list[0].text) == " " + name + " " + dflt
  {
    Single("// " + name + " " + dflt, pos - 1)
  }

  /** The comment synthesised for a type spec: no space after the slashes. */
  function TypeComment(name: string, pos: nat, dflt: string): (g: CommentGroup)
    ensures |g.list| == 1 && g.list[0].slash == pos - 1
    ensures |g.list[0].text| >= 2 && g.list[0].text[..2] == "//" && Content(g.list[0].text) == name + " " + dflt
  {
    Single("//" + name + " " + dflt, pos - 1)
  }

  /** The Doc of a function declaration after FindComment. */
  function FuncDoc(name: string, pos: nat, doc: Doc, visits: Visits, dflt: string): (r: Doc)
    ensures Count(visits, Key(name, pos)) > 2 ==> r == Cleared()
    ensures Count(visits, Key(name, pos)) <= 2 && IsExported(name) && TextEmpty(doc) ==> r == Some(FuncComment(name, pos, dflt))
    ensures Count(visits, Key(name, pos)) <= 2 && !(IsExported(name) && TextEmpty(doc)) ==> r == doc
  {
    var synthesized := if IsExported(name) && TextEmpty(doc) then Some(FuncComment(name, pos, dflt)) else doc;
    if Count(visits, Key(name, pos)) > 2 then Cleared() else synthesized
  }

  /** An exported name's synthesised comment has text. */
  lemma SynthesizedHasText(name: string, pos: nat, dflt: string)
    requires IsExported(name)
    ensures !TextEmpty(Some(FuncComment(name, pos, dflt)))
    ensures !TextEmpty(Some(TypeComment(name, pos, dflt)))
  {
    var f := "// " + name + " " + dflt;
    assert f[..2] == "//" && Content(f) == f[2..];
    assert f[2..][1..][0] == name[0];
    assert !Blank(f[2..]);
    var t := "//" + name + " " + dflt;
    assert t[..2] == "//" && Content(t) == t[2..];
    assert t[2..][0] == name[0];
  }

  /** A function declaration ends up with a Doc that has text exactly when
      its key was counted at most twice and it had text already or is
      exported; past two counts the Doc is an empty group. */
  lemma FuncDocSpec(name: string, pos: nat, doc: Doc, visits: Visits, dflt: string)
    ensures var r := FuncDoc(name, pos, doc, visits, dflt);
      && (Count(visits, Key(name, pos)) > 2 ==> r == Cleared())
      && (!TextEmpty(r) <==> Count(visits, Key(name, pos)) <= 2 && (IsExported(name) || !TextEmpty(doc)))
  {
    if IsExported(name) {
      SynthesizedHasText(name, pos, dflt);
    }
  }

  /** The Doc of one spec of a GenDecl (group Doc `groupDoc`, position
      `pos`) after FindComment; a spec of any other kind keeps its Doc. */
  function SpecDoc(spec: Kind, doc: Doc, groupDoc: Doc, pos: nat, visits: Visits, dflt: string): (r: Doc)
    ensures !spec.TypeSpec? && !spec.ValueSpec? ==> r == doc
    ensures spec.ValueSpec? && !TextEmpty(groupDoc) ==> r == doc
  {
    match spec
    case TypeSpec(name) =>
      var synthesized := if IsExported(name) && TextEmpty(groupDoc) then Some(TypeComment(name, pos, dflt)) else doc;
      if Count(visits, name) > 2 then Cleared() else synthesized
    case ValueSpec(names) =>
      if TextEmpty(groupDoc) then
        if Count(visits, Key(names[0], pos)) > 2 then Cleared() else Some(FuncComment(names[0], pos, dflt))
      else doc
    case _ => doc
  }

  /** The node's own Doc after FindComment: only a FuncDecl's changes. */
  function OwnDoc(kind: Kind, doc: Doc, visits: Visits, dflt: string): Doc {
    if kind.FuncDecl? then FuncDoc(kind.name, kind.pos, doc, visits, dflt) else doc
  }

  /** The children's Docs after FindComment on a node with Doc `doc`: only
      the specs of a GenDecl change. */
  function SpecDocs(kind: Kind, doc: Doc, children: seq<Tree>, visits: Visits, dflt: string): (r: seq<Doc>)
    ensures |r| == |children|
  {
    seq(|children|, i requires 0 <= i < |children| =>
      if kind.GenDecl? then SpecDoc(children[i].kind, children[i].doc, doc, kind.pos, visits, dflt)
      else children[i].doc)
  }

  /** The subtree after FindComment on its root with ledger `visits`: only
      Docs change. */
  function Found(t: Tree, visits: Visits, dflt: string): (r: Tree)
    ensures Strip(r) == Strip(t)
  {
    var cs := WithDocs(t.children, SpecDocs(t.kind, t.doc, t.children, visits, dflt));
    StripWithDocs(t.children, SpecDocs(t.kind, t.doc, t.children, visits, dflt));
    Tree(t.kind, OwnDoc(t.kind, t.doc, visits, dflt), t.line, cs)
  }

  /** The keys FindComment reads on a node with children of kinds `specs`. */
  function ReadKeys(kind: Kind, specs: seq<Kind>): set<string> {
    match kind
    case FuncDecl(name, pos) => {Key(name, pos)}
    case GenDecl(pos) =>
      (set i | 0 <= i < |specs| && specs[i].TypeSpec? :: specs[i].name)
      + (set i | 0 <= i < |specs| && specs[i].ValueSpec? :: Key(specs[i].names[0], pos))
    case _ => {}
  }

  // ------------------------------------------------------ the traversal

  datatype Outcome = Outcome(tree: Tree, visits: Visits, groups: seq<CommentGroup>)

  datatype Outcomes = Outcomes(trees: seq<Tree>, visits: Visits, groups: seq<CommentGroup>)

  /** Inspect on `t`, whose Doc holds `doc` when the traversal reaches it (its
      parent's FindComment may have replaced the Doc `t` was parsed with):
      the new subtree, the ledger afterwards, and the comment groups met. */
  function InspectNode(t: Tree, doc: Doc, visits: Visits, dflt: string): (r: Outcome)
    ensures r.tree.kind == t.kind && r.tree.line == t.line && |r.tree.children| == |t.children|
  {
    var walked := RecordAll(visits, WalkKeys(t));
    var own := OwnDoc(t.kind, doc, walked, dflt);
    var rest := InspectList(t.children, SpecDocs(t.kind, doc, t.children, walked, dflt), walked, dflt);
    Outcome(Tree(t.kind, own, t.line, rest.trees), rest.visits, DocGroups(own) + rest.groups + DocGroups(t.line))
  }

  /** Inspect on the siblings `ts`, left to right, their Docs being `docs`. */
  function InspectList(ts: seq<Tree>, docs: seq<Doc>, visits: Visits, dflt: string): (r: Outcomes)
    requires |docs| == |ts|
    ensures |r.trees| == |ts|
  {
    if ts == [] then Outcomes([], visits, [])
    else
      var p := InspectList(ts[..|ts| - 1], docs[..|ts| - 1], visits, dflt);
      var q := InspectNode(ts[|ts| - 1], docs[|ts| - 1], p.visits, dflt);
      Outcomes(p.trees + [q.tree], q.visits, p.groups + q.groups)
  }

  /** Inspect on the first `i + 1` siblings: Inspect on the first `i`, then
      on sibling `i` with the ledger they leave. */
  lemma InspectListStep(ts: seq<Tree>, docs: seq<Doc>, visits: Visits, dflt: string, i: nat)
    requires |docs| == |ts| && i < |ts|
    ensures var p := InspectList(ts[..i], docs[..i], visits, dflt);
            var q := InspectNode(ts[i], docs[i], p.visits, dflt);
            InspectList(ts[..i + 1], docs[..i + 1], visits, dflt) == Outcomes(p.trees + [q.tree], q.visits, p.groups + q.groups)
  {
    assert ts[..i + 1][..i] == ts[..i];
    assert docs[..i + 1][..i] == docs[..i];
  }

  /** Inspect reads a node's Doc from its `doc` argument, not from the tree. */
  lemma InspectIgnoresDoc(t: Tree, x: Doc, doc: Doc, visits: Visits, dflt: string)
    ensures InspectNode(t.(doc := x), doc, visits, dflt) == InspectNode(t, doc, visits, dflt)
  {
    assert WalkKeys(t.(doc := x)) == WalkKeys(t);
  }

  /** Every key the per-node walks of Inspect record in `t`: the walk of
      the root, then those of each child's subtree. */
  function PassKeys(t: Tree): seq<string> {
    WalkKeys(t) + PassKeysList(t.children)
  }

  function PassKeysList(ts: seq<Tree>): seq<string> {
    if ts == [] then [] else PassKeysList(ts[..|ts| - 1]) + PassKeys(ts[|ts| - 1])
  }

  /** The per-file pass: a fresh ledger, then Inspect from the file's root.
      `file.Comments` becomes the groups met. */
  function CommentPass(root: Tree, dflt: string): (r: Outcome)
    ensures r.tree.kind == root.kind && r.tree.line == root.line && |r.tree.children| == |root.children|
  {
    InspectNode(root, root.doc, map[], dflt)
  }

  // --------------------------------------- the pass stated by tree depth

  /** The ledger a node's FindComment would see if each key belonged to one
      node only: the node's own key, recorded once per node on the path from
      the root to it. */
  function Ideal(kind: Kind, specs: seq<Kind>, depth: nat): Visits {
    var k := VisitKey(kind, specs);
    if k.Some? then map[k.value := depth + 1] else map[]
  }

  /** The tree the pass produces, computed node by node from the depth. */
  function Expected(t: Tree, doc: Doc, depth: nat, dflt: string): (r: Tree)
    ensures r.kind == t.kind && r.line == t.line && |r.children| == |t.children|
  {
    var ideal := Ideal(t.kind, Kinds(t.children), depth);
    var docs := SpecDocs(t.kind, doc, t.children, ideal, dflt);
    Tree(t.kind, OwnDoc(t.kind, doc, ideal, dflt), t.line,
      seq(|t.children|, i requires 0 <= i < |t.children| => Expected(t.children[i], docs[i], depth + 1, dflt)))
  }

  /** Keys FindComment reads somewhere in `t` that Visit does not record at
      the reading node (bare type names, keys of value specs after the first). */
  function LookupKeys(t: Tree): set<string> {
    var specs := Kinds(t.children);
    var own := VisitKey(t.kind, specs);
    (ReadKeys(t.kind, specs) - (if own.Some? then {own.value} else {})) + LookupKeysList(t.children)
  }

  function LookupKeysList(ts: seq<Tree>): set<string> {
    if ts == [] then {} else LookupKeysList(ts[..|ts| - 1]) + LookupKeys(ts[|ts| - 1])
  }

  /** No two recorded keys coincide, and no key read only for lookup is ever recorded. */
  ghost predicate DistinctKeys(t: Tree) {
    && (forall k :: multiset(WalkKeys(t))[k] <= 1)
    && (forall k :: k in LookupKeys(t) ==> k !in WalkKeys(t))
  }

  /** DistinctKeys for siblings taken together. */
  ghost predicate DistinctKeysList(ts: seq<Tree>) {
    && (forall k :: multiset(WalkKeysList(ts))[k] <= 1)
    && (forall k :: k in LookupKeysList(ts) ==> k !in WalkKeysList(ts))
  }
}
