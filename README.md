# lazy-comment in Dafny

lazy-comment is a Go command that parses every Go file of a directory (or a
single file) and writes placeholder Doc comments into it. An exported
function `F` whose Doc has no text gets `// F <default comment>`. In a
`type`/`var`/`const` group whose own Doc has no text, every exported type
spec `T` gets `//T <default comment>` and every value spec gets
`// <first name> <default comment>`; either replaces any Doc the spec had
of its own. It decides what is "top level" by counting. A visitor records a
key for each function declaration and each first value spec it walks. The
key is the name followed by the decimal source position. The per-file
traversal (`ast.Inspect`) starts a fresh walk of the whole subtree at every
node. So, when no two declarations share a key, a declaration at depth `d`
has its key counted `d + 1` times when `FindComment` reaches it; keys can be
shared, though, since `a1` at 23 and `a` at 123 both give `a123`. A count
above two replaces the Doc with an empty comment group.

The project models that per-file pass:

- `Keys`: the key `fmt.Sprintf("%s%d", name, pos)`, its decimal part, and
  when two declarations share a key.
- `Ledger`: the `map[string]int` of visits, with Go's zero for a missing key
  and `visits[k]++`.
- `Ast`: the part of the syntax tree the pass reads and writes. It has a
  value type `Tree` and a heap class `Node`, whose only mutable field is
  `doc` (the `Doc` pointer FindComment assigns).
- `Pass`: the pass as functions on tree values. `InspectNode` and
  `InspectList` thread the ledger through the nested Inspect/Walk exactly
  as the Go program does. `Expected` computes the result node by node from
  the depth.
- `LazyComment`: the Go functions as methods on the heap tree: `Visit`,
  `Visitor.Visit`, `ast.Walk`, `FindComment`, the Inspect callback, and the
  per-file and per-directory loops. Each method is proved against the
  `Pass` functions.
- `Properties`: what the pass guarantees:
  - only Docs change;
  - `file.Comments` lists the tree's comment groups in pre-order;
  - the ledger's final counts;
  - with distinct keys, the result is `Expected`. In Go a function
    declaration is always a direct child of the file, so no function's Doc
    is cleared. What is cleared is the first value spec of a `var`/`const`
    group whose Doc has no text, nested inside a function body. A later spec of such a group keeps
    its placeholder when its first name differs from the first spec's (with
    the same first name it shares the key and is cleared too); nested
    exported type specs keep their placeholder;
  - a second pass changes nothing.
- `Uniqueness`: keys are distinct when no name the pass reads ends in a
  digit and no two key-recording declarations share a position. Under those
  two conditions no function declaration of a file has its Doc cleared.

## Model

| member | source | states |
|---|---|---|
| Keys.NatToString | lazy-comment.go:128 | the `%d` rendering of a position: at least one character, all digits, no leading zero from 10 up |
| Keys.Key | lazy-comment.go:181 | the key `fmt.Sprintf("%s%d", name, pos)`: the name, then only digits, and longer than the name |
| Keys.KeyParts | lazy-comment.go:188 | a key is the name followed by digits that read back as the position, so it always ends in a digit |
| Keys.KeyCollision | lazy-comment.go:128 | two different (name, position) pairs can share a key: `a1` at 23 and `a` at 123 both give `a123` |
| Keys.KeyInjective | lazy-comment.go:188 | when neither name ends in a digit, equal keys mean equal names and equal positions |
| Ledger.Count | lazy-comment.go:129 | `visits[key]` reads a missing key as zero |
| Ledger.Record | lazy-comment.go:182 | `visits[key]++` raises that key's count (zero when missing) by one and leaves every other count alone |
| Ledger.RecordAll | lazy-comment.go:91 | recording a list of keys raises each key's count by the number of times it occurs in the list |
| Ledger.RecordAllAppend | lazy-comment.go:91 | recording two walks one after the other is recording their keys in sequence |
| LazyComment.Visit | lazy-comment.go:173-196 | nil leaves the ledger alone; otherwise the ledger gets the node's key: the function's name+position, or the first name of the first value spec with the group's position, or none |
| Pass.VisitKey | lazy-comment.go:179-195 | the key Visit records for a node: name and position of a function, the first value spec's key for a general declaration, none for any other node |
| Pass.FirstValueName | lazy-comment.go:185-191 | the loop over the specs stops at the first value spec and takes its first name; there is none exactly when no spec is a value spec |
| Pass.FirstValueKey | lazy-comment.go:185-193 | a general declaration records a key exactly when one of its specs is a value spec |
| Pass.FirstValueKeyIsFirst | lazy-comment.go:185-193 | a GenDecl's key comes from the first value spec; there is none exactly when no spec is a value spec |
| Properties.VisitCounts | lazy-comment.go:179-195 | Visit adds one to exactly one count, that of the function's key or of the first value spec's key, and changes nothing for other nodes |
| LazyComment.Visitor.constructor | lazy-comment.go:81 | a visitor starts from the given ledger |
| LazyComment.Visitor.Visit | lazy-comment.go:46-53 | nil leaves the ledger as it was; a node updates the shared ledger as Visit does, and the walk goes on with the same visitor |
| LazyComment.Walk | lazy-comment.go:91 | `ast.Walk(visitor, n)` records the keys of every node of the subtree, in pre-order, in the shared ledger |
| Pass.WalkKeys | lazy-comment.go:91 | the keys `ast.Walk` records over a subtree, in pre-order; the root's own key, when it has one, comes first |
| Pass.WalkKeysStrip | lazy-comment.go:91 | the keys a walk records depend only on the tree's structure, never on Docs |
| LazyComment.FindComment | lazy-comment.go:111-171 | the new subtree is `Found` of the old one: the function's Doc or the specs' Docs per the rules below, with nothing else changed |
| LazyComment.FindSpecComments | lazy-comment.go:136-168 | each spec of a GenDecl gets the Doc SpecDoc gives from the group's Doc read before the loop |
| Ast.IsExported | lazy-comment.go:117 | `IsExported()`: the name starts with an upper-case ASCII letter |
| Ast.Cleared | lazy-comment.go:130 | `&ast.CommentGroup{}` (also lines 150 and 165): a non-nil group with no comments, whose text is empty |
| Ast.Node.constructor | lazy-comment.go:125 | a node of the parsed tree, whose Doc field lines 125, 146 and 161 assign: a new node over disjoint valid children is a valid tree whose value holds its kind, Doc, line comment and its children's values |
| Ast.Node.Abs | lazy-comment.go:146 | the value of a node's subtree: the node's kind, current Doc and line comment, and one child value per child |
| Ast.Groups | lazy-comment.go:87-89 | the comment groups `ast.Inspect` meets in a tree, in pre-order: a node's Doc, then its children's groups, then its line comment |
| Ast.TextEmpty | lazy-comment.go:117 | `Doc.Text() == ""`: a nil Doc, or a group whose comments are all blank once their markers are removed |
| Pass.FuncComment | lazy-comment.go:118-121 | the placeholder of a function and, with the group's position, of a value spec (lines 154-157): one comment, its slash at the position minus one, its text `//` followed by a space, the name, a space and the default comment |
| Pass.TypeComment | lazy-comment.go:139-142 | one comment, its slash at the group's position minus one, its text `//` directly followed by the name, a space and the default comment |
| Pass.FuncDoc | lazy-comment.go:114-131 | past two counts of the function's key the Doc is the empty group; otherwise it is the placeholder when the name is exported and the Doc has no text, and the old Doc in every other case |
| Pass.FuncDocSpec | lazy-comment.go:114-131 | a function's Doc is cleared past two counts; otherwise it has text exactly when it had text or the name is exported |
| Pass.SynthesizedHasText | lazy-comment.go:117-125 | the placeholder of an exported name has text, so it is never mistaken for a missing comment |
| Pass.SpecDoc | lazy-comment.go:136-168 | a node that is neither a type nor a value spec keeps its Doc, and so does a value spec in a group whose Doc has text |
| Properties.TypeSpecDoc | lazy-comment.go:137-151 | a type spec is cleared when its bare name counts above two; otherwise its Doc is the `//T` placeholder when it is exported in a group without Doc text (replacing its own Doc) and its old Doc in every other case, so it has text exactly when it had text or got the placeholder |
| Properties.ValueSpecDoc | lazy-comment.go:153-167 | in a group without Doc text a value spec gets the placeholder (whatever its own Doc and export status), cleared exactly past two counts; in a documented group it is left alone at any count |
| Pass.Found | lazy-comment.go:111-171 | FindComment changes only Docs, never the structure |
| Properties.Locality | lazy-comment.go:111-171 | FindComment depends on the ledger only through the counts of the keys it reads |
| LazyComment.Callback | lazy-comment.go:84-93 | the callback first walks the node's subtree into the shared ledger, then runs FindComment with the ledger the walk left |
| LazyComment.Inspect | lazy-comment.go:82-94 | Inspect with the callback leaves the tree, the ledger and the collected groups that InspectNode computes |
| LazyComment.InspectChild | lazy-comment.go:82-94 | Inspect on one child changes that child's subtree as InspectNode does and leaves its siblings alone |
| LazyComment.InspectChildren | lazy-comment.go:82-94 | Inspect on the first k children in order gives the trees, ledger and groups of InspectList on them; the rest are untouched |
| LazyComment.InspectAll | lazy-comment.go:82-94 | Inspect on all children gives InspectList's trees, ledger and groups |
| LazyComment.CommentFile | lazy-comment.go:79-96 | one file's pass: the tree and `file.Comments` are those of CommentPass; `file.Comments` are the tree's comment groups in pre-order; with distinct keys the tree is Expected from depth 0 |
| LazyComment.File.constructor | lazy-comment.go:96 | an `ast.File` is its syntax tree and its `Comments` list; a new one holds the given ones |
| LazyComment.CommentFileAt | lazy-comment.go:78-96 | one turn of the loop over the files: that file gets its pass, and every other file keeps its tree and its comments |
| LazyComment.CommentFiles | lazy-comment.go:77-96 | every file of the package is processed as if it were the only one |
| Pass.InspectNode | lazy-comment.go:82-94 | Inspect on one node: walk, FindComment, then the children, threading the ledger; the node keeps its kind, its line comment and its number of children |
| Pass.InspectList | lazy-comment.go:82-94 | Inspect on siblings left to right, one resulting tree per sibling |
| Pass.CommentPass | lazy-comment.go:79-96 | one file's pass from an empty ledger; the root keeps its kind, its line comment and its number of children |
| Pass.Expected | lazy-comment.go:82-94 | the reference the pass is proved equal to, indexed by depth rather than by a ledger: each node's Docs are computed as FindComment would with its own key counted depth + 1 times; kinds, line comments and numbers of children are kept |
| Properties.InspectShape | lazy-comment.go:82-94 | the pass keeps the structure, and every node but a function declaration ends with the Doc it held when the traversal reached it |
| Properties.InspectGroups | lazy-comment.go:87-89 | the collected groups are the comment groups of the resulting tree in pre-order (Doc, children, line comment) |
| Properties.InspectLedger | lazy-comment.go:91 | after the pass the ledger has recorded one walk per node, each over that node's subtree |
| Properties.InspectFrame | lazy-comment.go:91 | the pass over a subtree leaves the count of every key outside that subtree's walk alone |
| Properties.InspectExpected | lazy-comment.go:82-94 | with distinct keys and a subtree at depth d, the pass gives Expected: each FindComment sees its own key counted once per node on the path from the root |
| Properties.CommentPassExpected | lazy-comment.go:79-96 | with distinct keys, the file after the pass is Expected from depth 0 |
| Properties.ExpectedFuncDoc | lazy-comment.go:114-131 | a function at depth 0 or 1 gets or keeps its comment; one nested deeper would be cleared, a case Go's grammar never produces (a function declaration only occurs directly in a file) |
| Properties.ExpectedSpecDoc | lazy-comment.go:133-168 | with a plain name, a type spec is never cleared; the first value spec in an undocumented group is cleared exactly at depth 2 or more; a later value spec with its own key keeps its placeholder |
| Properties.FuncDocIdempotent | lazy-comment.go:114-131 | FindComment on a function declaration twice gives what once gives |
| Properties.SpecDocIdempotent | lazy-comment.go:136-168 | FindComment on a spec twice gives what once gives |
| Properties.InspectIdempotent | lazy-comment.go:82-94 | the pass over its own result gives the same tree, ledger and groups |
| Properties.CommentPassIdempotent | lazy-comment.go:79-96 | running the per-file pass on a file it already processed changes nothing |
| Uniqueness.FirstValueNameIn | lazy-comment.go:185-191 | the first value name Visit reads is the first name of one of the group's value specs |
| Uniqueness.WalkKeysDecls | lazy-comment.go:179-195 | the keys a walk records are the keys of the declarations it meets, in order |
| Uniqueness.KeysOfDistinct | lazy-comment.go:181-189 | declarations with plain names at distinct positions record distinct keys |
| Uniqueness.PlainNotKey | lazy-comment.go:149 | a type name that does not end in a digit is never a recorded key |
| Uniqueness.ValueLookupFree | lazy-comment.go:163 | the key of a later value spec whose first name differs from the first value spec's is recorded by no declaration |
| Uniqueness.LookupFree | lazy-comment.go:133-168 | no key FindComment looks up without Visit recording it at that node is recorded anywhere in the file |
| Uniqueness.SourceDistinctKeys | lazy-comment.go:128-189 | plain names and one position per key-recording declaration make the keys distinct, so the depth theorem applies |
| Uniqueness.TopLevelFuncDoc | lazy-comment.go:114-131 | in such a file every function declaration gets the placeholder when exported without Doc text and keeps its Doc otherwise; none is cleared |

## Left out

- `main`, its flags, `os.Stat` and `cleanExit` (lines 17-40, 198-201). These are command-line handling and process exit.
- `parser.ParseDir` and `parser.ParseFile`, with their error returns (lines 56-67). The model starts from a parsed tree.
- The single-file package wrapping (lines 68-74). It only names the package.
- `format.Node`, `fmt.Println` and `ioutil.WriteFile` (lines 98-105), and the `fmt.Println` in FindComment (line 116). These are output only.
- The loop over packages and the map order of files (lines 77-78). CommentFiles takes the files as a sequence. Each file has its own ledger, so their order does not matter.
- Token positions. Each declaration's position is a given natural number; the placeholder's `Slash` is that position minus one. The model does not move positions when comments are inserted.
- Printing and reparsing between passes. The idempotence lemmas are stated on trees, and an empty group is not turned back into a nil Doc.
- `CommentGroup.Text()`. TextEmpty reads it as "every comment is blank once its `//` or `/* */` markers are removed". It does not model directive comments, line joining or Unicode white space.
- `ast.IsExported`. It is modelled for ASCII upper-case initials only.
- Uniqueness.SourceDistinctKeys: it covers only names that do not end in a digit. Go allows names such as `x1`, whose keys can collide (KeyCollision); for those the depth theorem needs `DistinctKeys` shown directly.
- Comment groups attached to no node, such as a comment between two statements of a function body. `ast.Inspect` never meets them, so line 96 drops them from `file.Comments`; the model's tree has no such groups, and Groups lists only Doc and line-comment groups.
- Go's syntax tree is reduced to the nodes the pass treats differently: file, function declaration, general declaration, type spec, value spec and any other node. Each node has its Doc and its line comment, and its children are in `ast.Walk` order. Comment groups are Doc and line-comment fields, not nodes. Walk and FindComment do nothing on them, and Inspect only collects them.
- A value spec always has at least one name, as the parser guarantees.
- Go's value-typed `Visitor` is one object. Its copies share the same map.
- Counts are unbounded integers. A file cannot nest deeply enough to overflow `int`.
- `ast.Inspect`'s loop over a node's children is library code. It is modelled as recursion over the number of children already inspected (InspectChildren).
