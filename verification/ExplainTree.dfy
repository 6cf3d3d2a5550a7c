// Rebuilding a query plan from the indentation of its lines.
module ExplainTree {
  import opened Collections
  import opened Text

  // ---- Lines ----

  datatype Line = Line(indent: nat, content: string)

  const ARROW := "-> "

  predicate LineSpace(c: char) {
    c == ' ' || c == '\t' || c == '\r'
  }

  function TrimEnd(s: string): string {
    if s != [] && LineSpace(s[|s| - 1]) then TrimEnd(s[..|s| - 1]) else s
  }

  function FindArrow(s: string): Option<nat> {
    if |s| < 3 then None
    else if s[..3] == ARROW then Some(0)
    else match FindArrow(s[1..]) case None => None case Some(i) => Some(i + 1)
  }

  lemma {:induction false} ArrowWithin(s: string)
    ensures FindArrow(s).Some? ==> FindArrow(s).value + 3 <= |s|
  {
    if |s| >= 3 && s[..3] != ARROW { ArrowWithin(s[1..]); }
  }

  // A plan line, or None for a line without an arrow.
  function ReadLine(raw: string): Option<Line> {
    var line := TrimEnd(raw);
    match FindArrow(line)
    case None => None
    case Some(idx) =>
      ArrowWithin(line);
      Some(Line(idx, TrimSpace(line[idx + 3..])))
  }

  function ReadLines(raws: seq<string>): seq<Line> {
    if raws == [] then []
    else match ReadLine(raws[0])
         case Some(line) => [line] + ReadLines(raws[1..])
         case None => ReadLines(raws[1..])
  }

  function Spaces(n: nat): string {
    if n == 0 then "" else [' '] + Spaces(n - 1)
  }

  function PrintLine(l: Line): string {
    Spaces(l.indent) + (ARROW + l.content)
  }

  lemma {:induction false} ArrowAfterSpaces(n: nat, content: string)
    ensures |Spaces(n)| == n
    ensures FindArrow(Spaces(n) + (ARROW + content)) == Some(n)
    ensures (Spaces(n) + (ARROW + content))[n + 3..] == content
  {
    var s := Spaces(n) + (ARROW + content);
    if n == 0 {
      assert s[..3] == ARROW;
    } else {
      ArrowAfterSpaces(n - 1, content);
      assert s[1..] == Spaces(n - 1) + (ARROW + content);
      assert s[..3][0] == ' ' && ARROW[0] == '-';
      assert s[n + 3..] == s[1..][n + 2..];
    }
  }

  // A printed line is read back exactly when its content is not empty and has
  // no space around it.
  lemma LineRoundTrip(l: Line)
    ensures ReadLine(PrintLine(l)) == Some(l) <==> l.content != "" && Trimmed(l.content)
  {
    var s := PrintLine(l);
    if l.content == "" {
      EmptyLine(l);
    } else if Trimmed(l.content) {
      assert s[|s| - 1] == l.content[|l.content| - 1];
      LineSpaceIsSpace(s[|s| - 1]);
      ArrowAfterSpaces(l.indent, l.content);
      TrimTrims(l.content);
    } else if ReadLine(s) == Some(l) {
      var line := TrimEnd(s);
      ArrowWithin(line);
      TrimTrims(line[FindArrow(line).value + 3..]);
    }
  }

  lemma EmptyLine(l: Line)
    requires l.content == ""
    ensures ReadLine(PrintLine(l)).None?
  {
    var s, cut := PrintLine(l), Spaces(l.indent) + "->";
    assert s == cut + " " && s[..|s| - 1] == cut;
    assert TrimEnd(s) == TrimEnd(cut) == cut;
    NoArrow(l.indent);
  }

  lemma {:induction false} NoArrow(n: nat)
    ensures FindArrow(Spaces(n) + "->").None?
  {
    var s := Spaces(n) + "->";
    if n > 0 {
      NoArrow(n - 1);
      assert s[1..] == Spaces(n - 1) + "->";
      assert s[..3][0] == ' ' && ARROW[0] == '-';
    }
  }

  // ---- Parents ----

  // The nearest line before j, at or before i, indented less than line j.
  function NearestFrom(lines: seq<Line>, j: nat, i: int): Option<nat>
    requires j < |lines| && i < j
    decreases i + 1
  {
    if i < 0 then None
    else if lines[i].indent < lines[j].indent then Some(i)
    else NearestFrom(lines, j, i - 1)
  }

  function Parent(lines: seq<Line>, j: nat): Option<nat>
    requires j < |lines|
  {
    NearestFrom(lines, j, j - 1)
  }

  lemma {:induction false} NearestIs(lines: seq<Line>, j: nat, i: int, p: Option<nat>)
    requires j < |lines| && i < j
    requires p.Some? ==> p.value <= i && lines[p.value].indent < lines[j].indent
    requires forall k :: (if p.Some? then p.value else -1) < k <= i ==> lines[k].indent >= lines[j].indent
    ensures NearestFrom(lines, j, i) == p
    decreases i + 1
  {
    if i >= 0 && lines[i].indent >= lines[j].indent {
      NearestIs(lines, j, i - 1, p);
    }
  }

  lemma {:induction false} NearestMeaning(lines: seq<Line>, j: nat, i: int)
    requires j < |lines| && i < j
    ensures match NearestFrom(lines, j, i)
            case Some(p) =>
              && p <= i && lines[p].indent < lines[j].indent
              && forall k :: p < k <= i ==> lines[k].indent >= lines[j].indent
            case None => forall k :: 0 <= k <= i ==> lines[k].indent >= lines[j].indent
    decreases i + 1
  {
    if i >= 0 && lines[i].indent >= lines[j].indent {
      NearestMeaning(lines, j, i - 1);
    }
  }

  // The lines before n whose parent is line i, in order.
  function Kids(lines: seq<Line>, i: nat, n: nat): (kids: seq<nat>)
    requires n <= |lines|
    ensures forall k :: k in kids ==> i < k < n
  {
    if n == 0 then []
    else
      NearestMeaning(lines, n - 1, n - 2);
      if Parent(lines, n - 1) == Some(i) then Kids(lines, i, n - 1) + [n - 1] else Kids(lines, i, n - 1)
  }

  // The last line before n with no parent.
  function LastRoot(lines: seq<Line>, n: nat): Option<nat>
    requires n <= |lines|
  {
    if n == 0 then None else if Parent(lines, n - 1).None? then Some(n - 1) else LastRoot(lines, n - 1)
  }

  // ---- The stack ----

  class ExplainNode {
    const id: nat
    const content: string
    var children: seq<ExplainNode>

    constructor (id: nat, content: string)
      ensures this.id == id && this.content == content && children == []
    {
      this.id, this.content, children := id, content, [];
    }
  }

  datatype Frame = Frame(indent: nat, node: ExplainNode)

  // The nodes made so far stand for the first lines, each knowing its children.
  ghost predicate Linked(lines: seq<Line>, nodes: seq<ExplainNode>)
    requires |nodes| <= |lines|
    reads nodes
  {
    && (forall i, j :: 0 <= i < j < |nodes| ==> nodes[i] != nodes[j])
    && (forall i :: 0 <= i < |nodes| ==> nodes[i].id == i && nodes[i].content == lines[i].content)
    && (forall i {:trigger nodes[i].children} :: 0 <= i < |nodes| ==>
          ChildrenAre(nodes[i].children, nodes, Kids(lines, i, |nodes|)))
  }

  ghost predicate ChildrenAre(children: seq<ExplainNode>, nodes: seq<ExplainNode>, kids: seq<nat>) {
    |children| == |kids| && forall k :: 0 <= k < |kids| ==> kids[k] < |nodes| && children[k] == nodes[kids[k]]
  }

  // The open frames: strictly deeper as they go up, and every line that is not
  // open is hidden behind a later open one indented no more than it.
  ghost predicate Open(lines: seq<Line>, nodes: seq<ExplainNode>, stack: seq<Frame>)
    requires |nodes| <= |lines|
  {
    && (forall i :: 0 <= i < |stack| ==>
          && stack[i].node.id < |nodes| && nodes[stack[i].node.id] == stack[i].node
          && lines[stack[i].node.id].indent == stack[i].indent)
    && (forall i, j :: 0 <= i < j < |stack| ==>
        stack[i].indent < stack[j].indent && stack[i].node.id < stack[j].node.id)
    && (forall k :: 0 <= k < |nodes| ==> Shown(lines, stack, k))
  }

  ghost predicate Shown(lines: seq<Line>, stack: seq<Frame>, k: nat)
    requires k < |lines|
  {
    exists i :: 0 <= i < |stack| && stack[i].node.id >= k && stack[i].indent <= lines[k].indent
  }

  // Pops every frame the new line does not belong under.
  method Unwind(stack: seq<Frame>, indent: nat) returns (left: seq<Frame>)
    ensures left <= stack
    ensures left != [] ==> left[|left| - 1].indent < indent
    ensures forall i :: |left| <= i < |stack| ==> stack[i].indent >= indent
  {
    left := stack;
    while |left| > 0 && left[|left| - 1].indent >= indent
      invariant left <= stack
      invariant forall i :: |left| <= i < |stack| ==> stack[i].indent >= indent
    {
      left := left[..|left| - 1];
    }
  }

  // What is on top after unwinding is the new line's parent.
  lemma TopIsParent(lines: seq<Line>, nodes: seq<ExplainNode>, stack: seq<Frame>, left: seq<Frame>)
    requires |nodes| < |lines| && Open(lines, nodes, stack) && left <= stack
    requires var indent := lines[|nodes|].indent;
             && (left != [] ==> left[|left| - 1].indent < indent)
             && forall i :: |left| <= i < |stack| ==> stack[i].indent >= indent
    ensures Parent(lines, |nodes|) == if left == [] then None else Some(left[|left| - 1].node.id)
  {
    var n := |nodes|;
    var p := if left == [] then None else Some(left[|left| - 1].node.id);
    assert forall i :: 0 <= i < |left| ==> stack[i] == left[i];
    forall k | (if p.Some? then p.value else -1) < k <= n - 1 ensures lines[k].indent >= lines[n].indent {
      assert Shown(lines, stack, k);
      var i :| 0 <= i < |stack| && stack[i].node.id >= k && stack[i].indent <= lines[k].indent;
    }
    NearestIs(lines, n, n - 1, p);
  }

  lemma PushedIsOpen(lines: seq<Line>, nodes: seq<ExplainNode>, stack: seq<Frame>, left: seq<Frame>, node: ExplainNode)
    requires |nodes| < |lines| && Open(lines, nodes, stack) && left <= stack && node.id == |nodes|
    requires var indent := lines[|nodes|].indent;
             && (left != [] ==> left[|left| - 1].indent < indent)
             && forall i :: |left| <= i < |stack| ==> stack[i].indent >= indent
    ensures Open(lines, nodes + [node], left + [Frame(lines[|nodes|].indent, node)])
  {
    var n, pushed := |nodes|, left + [Frame(lines[|nodes|].indent, node)];
    var nodes' := nodes + [node];
    forall k | 0 <= k < |nodes'| ensures Shown(lines, pushed, k) {
      var top := |left|;
      assert pushed[top].node.id == n;
      if k < n {
        assert Shown(lines, stack, k);
        var i :| 0 <= i < |stack| && stack[i].node.id >= k && stack[i].indent <= lines[k].indent;
        if i < |left| {
          assert pushed[i] == stack[i];
        } else {
          assert pushed[top].indent <= lines[k].indent;
        }
      } else {
        assert pushed[top].node.id >= k && pushed[top].indent <= lines[k].indent;
      }
    }
    forall i, j | 0 <= i < j < |pushed|
      ensures pushed[i].indent < pushed[j].indent && pushed[i].node.id < pushed[j].node.id
    {
      assert pushed[i] == stack[i];
      if j < |left| {
        assert pushed[j] == stack[j];
      } else if i < |left| - 1 {
        assert stack[|left| - 1] == left[|left| - 1];
      }
    }
  }

  // The lines read from raw r on are line n and later.
  ghost predicate StillToCome(raws: seq<string>, r: nat, lines: seq<Line>, n: nat) {
    r <= |raws| && n <= |lines| && lines[n..] == ReadLines(raws[r..])
  }

  lemma NextLine(raws: seq<string>, r: nat, lines: seq<Line>, n: nat)
    requires r < |raws| && StillToCome(raws, r, lines, n)
    ensures match ReadLine(raws[r])
            case None => StillToCome(raws, r + 1, lines, n)
            case Some(line) => n < |lines| && lines[n] == line && StillToCome(raws, r + 1, lines, n + 1)
  {
    assert raws[r..][1..] == raws[r + 1..];
    if ReadLine(raws[r]).Some? {
      assert lines[n..][0] == ReadLine(raws[r]).value;
      assert lines[n..][1..] == lines[n + 1..];
    }
  }

  lemma AllRead(raws: seq<string>, lines: seq<Line>, n: nat)
    requires StillToCome(raws, |raws|, lines, n)
    ensures n == |lines|
  {
    assert raws[|raws|..] == [];
  }

  lemma NothingRead(raws: seq<string>)
    ensures StillToCome(raws, 0, ReadLines(raws), 0)
  {
    assert raws[0..] == raws;
  }

  // Builds the tree of plan nodes, one line at a time. The root is the last
  // line that nothing encloses.
  method Parse(raws: seq<string>)
    returns (root: ExplainNode?, ghost nodes: seq<ExplainNode>, ghost made: set<ExplainNode>)
    ensures ParsedAs(ReadLines(raws), nodes, root)
    ensures fresh(made) && forall i :: 0 <= i < |nodes| ==> nodes[i] in made
  {
    ghost var lines := ReadLines(raws);
    var stack: seq<Frame> := [];
    var counter: nat := 0;
    root, nodes, made := null, [], {};
    NothingRead(raws);
    for r := 0 to |raws|
      invariant fresh(made) && StillToCome(raws, r, lines, counter)
      invariant Built(lines, nodes, made, stack, root, counter)
    {
      NextLine(raws, r, lines, counter);
      var read := ReadLine(raws[r]);
      if read.None? {
        continue;
      }
      stack, root, nodes, made := Place(lines, nodes, made, stack, root, counter, read.value);
      counter := counter + 1;
    }
    AllRead(raws, lines, counter);
    if root == null { RootExists(lines); }
  }

  // Every line has its node, with the lines it is the parent of for children,
  // and root is the last one that nothing encloses, missing only without lines.
  ghost predicate ParsedAs(lines: seq<Line>, nodes: seq<ExplainNode>, root: ExplainNode?)
    reads nodes
  {
    && |nodes| == |lines| && Linked(lines, nodes) && RootIs(lines, nodes, root)
    && (root == null <==> lines == [])
  }

  // root is the last of the nodes that nothing encloses.
  ghost predicate RootIs(lines: seq<Line>, nodes: seq<ExplainNode>, root: ExplainNode?)
    requires |nodes| <= |lines|
  {
    if root == null then LastRoot(lines, |nodes|) == None
    else root.id < |nodes| && nodes[root.id] == root && LastRoot(lines, |nodes|) == Some(root.id)
  }

  lemma RootMoves(lines: seq<Line>, nodes: seq<ExplainNode>, root: ExplainNode?, node: ExplainNode)
    requires |nodes| < |lines| && RootIs(lines, nodes, root) && node.id == |nodes|
    ensures RootIs(lines, nodes + [node], if Parent(lines, |nodes|).None? then node else root)
  {
  }

  // The state after n lines: their nodes, all of them made here, what is open and the root.
  ghost predicate Built(lines: seq<Line>, nodes: seq<ExplainNode>, made: set<ExplainNode>, stack: seq<Frame>,
                        root: ExplainNode?, n: nat)
    reads nodes
  {
    && |nodes| == n <= |lines| && (forall i :: 0 <= i < n ==> nodes[i] in made)
    && Linked(lines, nodes) && Open(lines, nodes, stack) && RootIs(lines, nodes, root)
  }

  // Makes the node of the next line, puts it under its parent, if it has one, and opens it.
  method Place(ghost lines: seq<Line>, ghost nodes: seq<ExplainNode>, ghost made: set<ExplainNode>, stack: seq<Frame>,
               root: ExplainNode?, id: nat, line: Line)
    returns (stack': seq<Frame>, root': ExplainNode?, ghost nodes': seq<ExplainNode>, ghost made': set<ExplainNode>)
    requires id < |lines| && lines[id] == line && Built(lines, nodes, made, stack, root, id)
    modifies made
    ensures fresh(made' - made) && Built(lines, nodes', made', stack', root', id + 1)
  {
    var node := new ExplainNode(id, line.content);
    var left := Unwind(stack, line.indent);
    TopIsParent(lines, nodes, stack, left);
    PushedIsOpen(lines, nodes, stack, left, node);
    RootMoves(lines, nodes, root, node);
    root' := if |left| == 0 then node else root;
    nodes', made', stack' := nodes + [node], made + {node}, left + [Frame(line.indent, node)];
    assert left != [] ==> left[|left| - 1] == stack[|left| - 1];
    Attach(lines, nodes, left, node);
  }

  // Appends the new node to the children of its parent, if it has one.
  method Attach(ghost lines: seq<Line>, ghost nodes: seq<ExplainNode>, left: seq<Frame>, node: ExplainNode)
    requires |nodes| < |lines| && Linked(lines, nodes) && node !in nodes
    requires node.id == |nodes| && node.content == lines[|nodes|].content && node.children == []
    requires left != [] ==>
               var top := left[|left| - 1].node;
               top.id < |nodes| && nodes[top.id] == top
    requires Parent(lines, |nodes|) == if left == [] then None else Some(left[|left| - 1].node.id)
    modifies if left != [] then {left[|left| - 1].node} else {}
    ensures Linked(lines, nodes + [node])
  {
    ghost var n, nodes' := |nodes|, nodes + [node];
    assert forall i :: 0 <= i < n ==> ChildrenAre(nodes[i].children, nodes, Kids(lines, i, n));
    if |left| > 0 {
      var parent := left[|left| - 1].node;
      parent.children := parent.children + [node];
    }
    forall i | 0 <= i <= n ensures ChildrenAre(nodes'[i].children, nodes', Kids(lines, i, n + 1)) {
      if i < n {
        ghost var was := old(nodes[i].children);
        assert ChildrenAre(was, nodes, Kids(lines, i, n));
        assert nodes[i].children == if Parent(lines, n) == Some(i) then was + [node] else was;
        ChildrenGrow(lines, nodes, i, was, node);
      } else {
        NoKidsYet(lines, n, n + 1);
      }
    }
  }

  lemma ChildrenGrow(lines: seq<Line>, nodes: seq<ExplainNode>, i: nat, was: seq<ExplainNode>, node: ExplainNode)
    requires |nodes| < |lines| && ChildrenAre(was, nodes, Kids(lines, i, |nodes|))
    ensures ChildrenAre(if Parent(lines, |nodes|) == Some(i) then was + [node] else was,
                        nodes + [node], Kids(lines, i, |nodes| + 1))
  {
    ChildAppended(was, nodes, Kids(lines, i, |nodes|), node);
  }

  lemma ChildAppended(children: seq<ExplainNode>, nodes: seq<ExplainNode>, kids: seq<nat>, node: ExplainNode)
    requires ChildrenAre(children, nodes, kids)
    ensures ChildrenAre(children, nodes + [node], kids)
    ensures ChildrenAre(children + [node], nodes + [node], kids + [|nodes|])
  {
  }

  lemma {:induction false} NoKidsYet(lines: seq<Line>, i: nat, n: nat)
    requires n <= |lines| && n <= i + 1
    ensures Kids(lines, i, n) == []
  {
    if Kids(lines, i, n) != [] {
      assert Kids(lines, i, n)[0] in Kids(lines, i, n);
    }
  }

  lemma {:induction false} RootExists(lines: seq<Line>)
    ensures lines != [] ==> LastRoot(lines, |lines|).Some?
  {
    if lines != [] { RootFound(lines, |lines|); }
  }

  lemma {:induction false} RootFound(lines: seq<Line>, n: nat)
    requires 0 < n <= |lines|
    ensures LastRoot(lines, n).Some?
  {
    if Parent(lines, n - 1).Some? {
      NearestMeaning(lines, n - 1, n - 2);
      RootFound(lines, n - 1);
    }
  }

  // ---- The round trip ----

  datatype Tree = Node(content: string, children: seq<Tree>)

  function Size(t: Tree): nat {
    1 + Sizes(t.children)
  }

  function Sizes(ts: seq<Tree>): nat {
    if ts == [] then 0 else Size(ts[0]) + Sizes(ts[1..])
  }

  // The preorder listing of a tree, indented by depth.
  function Listing(t: Tree, depth: nat, indent: nat -> nat): seq<Line> {
    [Line(indent(depth), t.content)] + ListingOf(t.children, depth + 1, indent)
  }

  function ListingOf(ts: seq<Tree>, depth: nat, indent: nat -> nat): seq<Line> {
    if ts == [] then [] else Listing(ts[0], depth, indent) + ListingOf(ts[1..], depth, indent)
  }

  // A tree with the number of each node's line.
  datatype Numbered = Numbered(id: nat, content: string, children: seq<Numbered>)

  function Number(t: Tree, from: nat): Numbered {
    Numbered(from, t.content, NumberAll(t.children, from + 1))
  }

  function NumberAll(ts: seq<Tree>, from: nat): seq<Numbered> {
    if ts == [] then [] else [Number(ts[0], from)] + NumberAll(ts[1..], from + Size(ts[0]))
  }

  // The tree under line i, by the parents of the lines.
  function Under(lines: seq<Line>, i: nat): Numbered
    requires i < |lines|
    decreases |lines| - i, 1, 0
  {
    Numbered(i, lines[i].content, UnderAll(lines, i, Kids(lines, i, |lines|)))
  }

  function UnderAll(lines: seq<Line>, i: nat, kids: seq<nat>): seq<Numbered>
    requires i < |lines| && forall k :: k in kids ==> i < k < |lines|
    decreases |lines| - i, 0, |kids|
  {
    if kids == [] then []
    else
      assert kids[0] in kids && forall k :: k in kids[1..] ==> k in kids;
      [Under(lines, kids[0])] + UnderAll(lines, i, kids[1..])
  }

  ghost predicate Growing(indent: nat -> nat) {
    forall a, b :: a < b ==> indent(a) < indent(b)
  }

  // The lines from at on are the preorder listing of ts at this depth.
  ghost predicate Lists(lines: seq<Line>, at: nat, ts: seq<Tree>, depth: nat, indent: nat -> nat)
    decreases ts
  {
    && at + Sizes(ts) <= |lines|
    && (ts != [] ==>
          && at < |lines| && lines[at] == Line(indent(depth), ts[0].content)
          && Lists(lines, at + 1, ts[0].children, depth + 1, indent)
          && Lists(lines, at + Size(ts[0]), ts[1..], depth, indent))
  }

  lemma {:induction false} ListingLength(t: Tree, depth: nat, indent: nat -> nat)
    ensures |Listing(t, depth, indent)| == Size(t)
    decreases t, 1
  {
    ListingOfLength(t.children, depth + 1, indent);
  }

  lemma {:induction false} ListingOfLength(ts: seq<Tree>, depth: nat, indent: nat -> nat)
    ensures |ListingOf(ts, depth, indent)| == Sizes(ts)
    decreases ts, 0
  {
    if ts != [] {
      ListingLength(ts[0], depth, indent);
      ListingOfLength(ts[1..], depth, indent);
    }
  }

  // Nothing in a block is indented less than its own depth asks.
  lemma {:induction false} BlockIndents(lines: seq<Line>, at: nat, ts: seq<Tree>, depth: nat, indent: nat -> nat)
    requires Growing(indent) && Lists(lines, at, ts, depth, indent)
    ensures forall k :: at <= k < at + Sizes(ts) ==> lines[k].indent >= indent(depth)
    decreases ts
  {
    if ts != [] {
      BlockIndents(lines, at + 1, ts[0].children, depth + 1, indent);
      BlockIndents(lines, at + Size(ts[0]), ts[1..], depth, indent);
      assert indent(depth) < indent(depth + 1);
    }
  }

  lemma SliceOfSlice(lines: seq<Line>, a: nat, b: nat, c: nat, d: nat)
    requires a <= b <= |lines| && c <= d <= b - a
    ensures lines[a..b][c..d] == lines[a + c..a + d]
  {
    var outer, inner := lines[a..b], lines[a + c..a + d];
    assert forall i :: 0 <= i < d - c ==> outer[c..d][i] == outer[c + i] == lines[a + (c + i)] == inner[i];
  }

  // A slice that is the listing: its first line, the children of that, the rest.
  lemma ListingSplits(lines: seq<Line>, at: nat, ts: seq<Tree>, depth: nat, indent: nat -> nat)
    requires ts != [] && at + Sizes(ts) <= |lines| && lines[at..at + Sizes(ts)] == ListingOf(ts, depth, indent)
    ensures var next, kids := at + Size(ts[0]), ts[0].children;
            && lines[at] == Line(indent(depth), ts[0].content)
            && lines[at + 1..at + 1 + Sizes(kids)] == ListingOf(kids, depth + 1, indent)
            && lines[next..next + Sizes(ts[1..])] == ListingOf(ts[1..], depth, indent)
  {
    var end, n := at + Sizes(ts), Size(ts[0]);
    var block, head := lines[at..end], Listing(ts[0], depth, indent);
    var kids, rest := ListingOf(ts[0].children, depth + 1, indent), ListingOf(ts[1..], depth, indent);
    ListingLength(ts[0], depth, indent);
    ListingOfLength(ts[0].children, depth + 1, indent);
    ListingOfLength(ts[1..], depth, indent);
    assert block == head + rest && head == [Line(indent(depth), ts[0].content)] + kids;
    assert lines[at] == block[0];
    assert block[1..n] == kids && block[n..n + |rest|] == rest;
    SliceOfSlice(lines, at, end, 1, n);
    SliceOfSlice(lines, at, end, n, n + |rest|);
  }

  lemma {:induction false} SliceLists(lines: seq<Line>, at: nat, ts: seq<Tree>, depth: nat, indent: nat -> nat)
    requires at + Sizes(ts) <= |lines| && lines[at..at + Sizes(ts)] == ListingOf(ts, depth, indent)
    ensures Lists(lines, at, ts, depth, indent)
    decreases ts
  {
    if ts != [] {
      ListingSplits(lines, at, ts, depth, indent);
      SliceLists(lines, at + 1, ts[0].children, depth + 1, indent);
      SliceLists(lines, at + Size(ts[0]), ts[1..], depth, indent);
    }
  }

  function Starts(ts: seq<Tree>, from: nat): seq<nat> {
    if ts == [] then [] else [from] + Starts(ts[1..], from + Size(ts[0]))
  }

  lemma StartsFirst(ts: seq<Tree>, from: nat)
    requires ts != []
    ensures Starts(ts, from) == [from] + Starts(ts[1..], from + Size(ts[0]))
  {
  }

  lemma {:induction false} StartsWithin(ts: seq<Tree>, from: nat)
    ensures forall k :: k in Starts(ts, from) ==> from <= k < from + Sizes(ts)
  {
    if ts != [] {
      StartsWithin(ts[1..], from + Size(ts[0]));
    }
  }

  // Lines strictly under the first tree of a block have a parent in that tree.
  lemma InsideParent(lines: seq<Line>, at: nat, ts: seq<Tree>, depth: nat, indent: nat -> nat, j: nat)
    requires Growing(indent) && ts != [] && Lists(lines, at, ts, depth, indent) && at < j < at + Size(ts[0])
    ensures j < |lines| && Parent(lines, j).Some? && Parent(lines, j).value >= at
  {
    BlockIndents(lines, at + 1, ts[0].children, depth + 1, indent);
    assert indent(depth) < indent(depth + 1);
    NearestMeaning(lines, j, j - 1);
  }

  // Within the block of a node's children, exactly the first line of each child
  // has that node for its parent.
  lemma {:induction false} KidsOfBlock(
      lines: seq<Line>, top: nat, at: nat, ts: seq<Tree>, depth: nat, indent: nat -> nat)
    requires Growing(indent) && top < at && Lists(lines, at, ts, depth, indent)
    requires lines[top].indent < indent(depth)
    requires forall k :: top < k < at ==> lines[k].indent >= indent(depth)
    ensures Kids(lines, top, at + Sizes(ts)) == Kids(lines, top, at) + Starts(ts, at)
    decreases ts
  {
    if ts == [] {
      assert Kids(lines, top, at) + [] == Kids(lines, top, at);
    } else {
      var next := at + Size(ts[0]);
      var rest := ts[1..];
      FirstOfBlock(lines, top, at, ts, depth, indent);
      RestOfBlock(lines, top, at, ts, depth, indent);
      KidsOfBlock(lines, top, next, rest, depth, indent);
      StartsFirst(ts, at);
      AssociateNats(Kids(lines, top, at), [at], Starts(rest, next));
    }
  }

  lemma RestOfBlock(lines: seq<Line>, top: nat, at: nat, ts: seq<Tree>, depth: nat, indent: nat -> nat)
    requires Growing(indent) && top < at && ts != [] && Lists(lines, at, ts, depth, indent)
    requires forall k :: top < k < at ==> lines[k].indent >= indent(depth)
    ensures var next := at + Size(ts[0]);
            && Lists(lines, next, ts[1..], depth, indent) && at + Sizes(ts) == next + Sizes(ts[1..])
            && forall k :: top < k < next ==> lines[k].indent >= indent(depth)
  {
    BlockIndents(lines, at, ts, depth, indent);
  }

  lemma AssociateNats(a: seq<nat>, b: seq<nat>, c: seq<nat>)
    ensures (a + b) + c == a + (b + c)
  {
  }

  lemma FirstOfBlock(lines: seq<Line>, top: nat, at: nat, ts: seq<Tree>, depth: nat, indent: nat -> nat)
    requires Growing(indent) && top < at && ts != [] && Lists(lines, at, ts, depth, indent)
    requires lines[top].indent < indent(depth)
    requires forall k :: top < k < at ==> lines[k].indent >= indent(depth)
    ensures at + Size(ts[0]) <= |lines| && Kids(lines, top, at + Size(ts[0])) == Kids(lines, top, at) + [at]
  {
    NearestIs(lines, at, at - 1, Some(top));
    KidsInside(lines, top, at, ts, depth, indent, at + Size(ts[0]));
  }

  lemma {:induction false} KidsInside(
      lines: seq<Line>, top: nat, at: nat, ts: seq<Tree>, depth: nat, indent: nat -> nat, n: nat)
    requires Growing(indent) && top < at && ts != [] && Lists(lines, at, ts, depth, indent)
    requires at < n <= at + Size(ts[0]) && Parent(lines, at) == Some(top)
    ensures n <= |lines| && Kids(lines, top, n) == Kids(lines, top, at) + [at]
    decreases n
  {
    if n > at + 1 {
      InsideParent(lines, at, ts, depth, indent, n - 1);
      KidsInside(lines, top, at, ts, depth, indent, n - 1);
    }
  }

  // Past a line indented no more than a node, nothing has that node for its parent.
  lemma {:induction false} KidsPast(lines: seq<Line>, top: nat, end: nat, n: nat)
    requires top < end <= n <= |lines| && (end < |lines| ==> lines[end].indent <= lines[top].indent)
    ensures Kids(lines, top, n) == Kids(lines, top, end)
    decreases n
  {
    if n > end {
      KidsPast(lines, top, end, n - 1);
      NearestMeaning(lines, n - 1, n - 2);
    }
  }

  // The children of the first line of a block are the first lines of its children's trees.
  lemma KidsOfTree(lines: seq<Line>, at: nat, ts: seq<Tree>, depth: nat, indent: nat -> nat)
    requires Growing(indent) && ts != [] && Lists(lines, at, ts, depth, indent)
    requires at + Size(ts[0]) == |lines| || lines[at + Size(ts[0])].indent <= indent(depth)
    ensures at < |lines| && Kids(lines, at, |lines|) == Starts(ts[0].children, at + 1)
  {
    var t, end := ts[0], at + Size(ts[0]);
    assert indent(depth) < indent(depth + 1);
    NoKidsYet(lines, at, at + 1);
    KidsOfBlock(lines, at, at + 1, t.children, depth + 1, indent);
    assert Kids(lines, at, end) == Starts(t.children, at + 1);
    KidsPast(lines, at, end, |lines|);
  }

  // The tree under the first line of a block is the first tree of the block.
  lemma {:induction false} UnderIsTree(lines: seq<Line>, at: nat, ts: seq<Tree>, depth: nat, indent: nat -> nat)
    requires Growing(indent) && ts != [] && Lists(lines, at, ts, depth, indent)
    requires at + Size(ts[0]) == |lines| || lines[at + Size(ts[0])].indent <= indent(depth)
    ensures at < |lines| && Under(lines, at) == Number(ts[0], at)
    decreases ts[0], 1
  {
    KidsOfTree(lines, at, ts, depth, indent);
    assert indent(depth) < indent(depth + 1);
    UnderAllAreTrees(lines, at, at + 1, ts[0].children, depth + 1, indent);
  }

  lemma UnderAllFirst(lines: seq<Line>, top: nat, k: nat, rest: seq<nat>)
    requires top < k < |lines| && forall j :: j in rest ==> top < j < |lines|
    ensures forall j :: j in [k] + rest ==> top < j < |lines|
    ensures UnderAll(lines, top, [k] + rest) == [Under(lines, k)] + UnderAll(lines, top, rest)
  {
    assert ([k] + rest)[1..] == rest;
  }

  // What follows the first tree of a block that ends where its depth allows.
  lemma NextInBlock(lines: seq<Line>, at: nat, ts: seq<Tree>, depth: nat, indent: nat -> nat)
    requires ts != [] && Lists(lines, at, ts, depth, indent)
    requires at + Sizes(ts) == |lines| || lines[at + Sizes(ts)].indent <= indent(depth)
    ensures var next := at + Size(ts[0]);
            && next + Sizes(ts[1..]) == at + Sizes(ts) && Lists(lines, next, ts[1..], depth, indent)
            && (next == |lines| || lines[next].indent <= indent(depth))
  {
  }

  lemma {:induction false} UnderAllAreTrees(
      lines: seq<Line>, top: nat, at: nat, ts: seq<Tree>, depth: nat, indent: nat -> nat)
    requires Growing(indent) && top < at && top < |lines| && Lists(lines, at, ts, depth, indent)
    requires at + Sizes(ts) == |lines| || lines[at + Sizes(ts)].indent <= indent(depth)
    ensures forall k :: k in Starts(ts, at) ==> top < k < |lines|
    ensures UnderAll(lines, top, Starts(ts, at)) == NumberAll(ts, at)
    decreases ts, 0
  {
    StartsWithin(ts, at);
    if ts != [] {
      var next, rest := at + Size(ts[0]), ts[1..];
      NextInBlock(lines, at, ts, depth, indent);
      assert ts[0] in ts;
      UnderIsTree(lines, at, ts, depth, indent);
      UnderAllAreTrees(lines, top, next, rest, depth, indent);
      UnderAllFirst(lines, top, at, Starts(rest, next));
      StartsFirst(ts, at);
    }
  }

  // Parsing the preorder listing of a tree, indented more the deeper a node is,
  // rebuilds the tree with its nodes numbered in preorder, from its only root.
  lemma PlanRoundTrip(t: Tree, indent: nat -> nat)
    requires Growing(indent)
    ensures var lines := Listing(t, 0, indent);
            lines != [] && Under(lines, 0) == Number(t, 0) && LastRoot(lines, |lines|) == Some(0)
  {
    var lines := Listing(t, 0, indent);
    ListingLength(t, 0, indent);
    assert [t][1..] == [] && ListingOf([t], 0, indent) == lines + [] == lines;
    assert Sizes([t]) == Size(t) + Sizes([t][1..]) == |lines|;
    assert lines[0..Sizes([t])] == lines;
    SliceLists(lines, 0, [t], 0, indent);
    UnderIsTree(lines, 0, [t], 0, indent);
    OneRoot(lines, t, indent, |lines|);
  }

  lemma {:induction false} OneRoot(lines: seq<Line>, t: Tree, indent: nat -> nat, n: nat)
    requires Growing(indent) && Lists(lines, 0, [t], 0, indent) && 0 < n <= Size(t) && n <= |lines|
    ensures LastRoot(lines, n) == Some(0)
  {
    if n > 1 {
      InsideParent(lines, 0, [t], 0, indent, n - 1);
      OneRoot(lines, t, indent, n - 1);
    }
  }

  // ---- From the text to the nodes ----

  // The text of some lines.
  function Printed(lines: seq<Line>): seq<string> {
    if lines == [] then [] else [PrintLine(lines[0])] + Printed(lines[1..])
  }

  lemma {:induction false} PrintedReads(lines: seq<Line>)
    requires forall l :: l in lines ==> l.content != "" && Trimmed(l.content)
    ensures ReadLines(Printed(lines)) == lines
  {
    if lines != [] {
      assert lines[0] in lines && forall l :: l in lines[1..] ==> l in lines;
      LineRoundTrip(lines[0]);
      PrintedReads(lines[1..]);
      assert Printed(lines)[1..] == Printed(lines[1..]);
    }
  }

  // The nodes from this one down are the tree.
  ghost predicate Mirrors(node: ExplainNode, t: Numbered)
    reads *
    decreases t
  {
    && node.id == t.id && node.content == t.content && |node.children| == |t.children|
    && forall k :: 0 <= k < |t.children| ==> Mirrors(node.children[k], t.children[k])
  }

  lemma {:induction false} UnderAllAt(lines: seq<Line>, i: nat, kids: seq<nat>)
    requires i < |lines| && forall k :: k in kids ==> i < k < |lines|
    ensures |UnderAll(lines, i, kids)| == |kids|
    ensures forall k :: 0 <= k < |kids| ==> kids[k] < |lines| && UnderAll(lines, i, kids)[k] == Under(lines, kids[k])
  {
    if kids != [] {
      assert kids[0] in kids && forall k :: k in kids[1..] ==> k in kids;
      UnderAllAt(lines, i, kids[1..]);
    }
  }

  lemma {:induction false} LinkedMirrors(lines: seq<Line>, nodes: seq<ExplainNode>, i: nat)
    requires i < |lines| == |nodes| && Linked(lines, nodes)
    ensures Mirrors(nodes[i], Under(lines, i))
    decreases |lines| - i
  {
    var kids := Kids(lines, i, |lines|);
    UnderAllAt(lines, i, kids);
    assert ChildrenAre(nodes[i].children, nodes, kids);
    forall k | 0 <= k < |kids| ensures Mirrors(nodes[i].children[k], UnderAll(lines, i, kids)[k]) {
      assert kids[k] in kids;
      LinkedMirrors(lines, nodes, kids[k]);
    }
  }

  // What a parse makes of the printed listing of a tree is that tree.
  lemma ParsedPlanMirrors(t: Tree, indent: nat -> nat, nodes: seq<ExplainNode>, root: ExplainNode?)
    requires Growing(indent) && forall l :: l in Listing(t, 0, indent) ==> l.content != "" && Trimmed(l.content)
    requires ParsedAs(ReadLines(Printed(Listing(t, 0, indent))), nodes, root)
    ensures root != null && Mirrors(root, Number(t, 0))
  {
    var lines := Listing(t, 0, indent);
    PrintedReads(lines);
    PlanRoundTrip(t, indent);
    LinkedMirrors(lines, nodes, 0);
  }

  // ---- What a line, a parent and a root are ----

  predicate ArrowAt(s: string, i: int) {
    0 <= i && i + 3 <= |s| && s[i] == '-' && s[i + 1] == '>' && s[i + 2] == ' '
  }

  // Something other than spaces, tabs and carriage returns stands at or after i.
  predicate TextFrom(s: string, i: nat) {
    exists k :: i <= k < |s| && s[k] != ' ' && s[k] != '\t' && s[k] != '\r'
  }

  lemma {:induction false} FirstArrow(s: string, i: nat)
    requires ArrowAt(s, i) && forall j :: 0 <= j < i ==> !ArrowAt(s, j)
    ensures FindArrow(s) == Some(i)
  {
    assert s[..3] == [s[0], s[1], s[2]];
    assert (s[..3] == ARROW) == ArrowAt(s, 0);
    if i > 0 {
      forall j | 0 <= j < i - 1 ensures !ArrowAt(s[1..], j) {
        assert !ArrowAt(s, j + 1);
      }
      FirstArrow(s[1..], i - 1);
    }
  }

  lemma {:induction false} NoArrowFound(s: string)
    requires forall i :: !ArrowAt(s, i)
    ensures FindArrow(s) == None
  {
    if |s| >= 3 {
      assert s[..3] == [s[0], s[1], s[2]];
      assert (s[..3] == ARROW) == ArrowAt(s, 0);
      forall i ensures !ArrowAt(s[1..], i) {
        assert i >= 0 ==> !ArrowAt(s, i + 1);
      }
      NoArrowFound(s[1..]);
    }
  }

  lemma {:induction false} TrimEndCuts(s: string)
    ensures TrimEnd(s) <= s && forall k :: |TrimEnd(s)| <= k < |s| ==> s[k] == ' ' || s[k] == '\t' || s[k] == '\r'
    ensures TrimEnd(s) == [] || !LineSpace(TrimEnd(s)[|TrimEnd(s)| - 1])
  {
    if s != [] && LineSpace(s[|s| - 1]) { TrimEndCuts(s[..|s| - 1]); }
  }

  lemma {:induction false} TrimRightOver(s: string, n: nat)
    requires n <= |s| && forall k :: n <= k < |s| ==> IsSpace(s[k])
    ensures TrimRight(s) == TrimRight(s[..n])
  {
    if n < |s| {
      TrimRightOver(s[..|s| - 1], n);
      assert s[..|s| - 1][..n] == s[..n];
    } else {
      assert s[..n] == s;
    }
  }

  lemma {:induction false} TrimOver(s: string, n: nat)
    requires n <= |s| && forall k :: n <= k < |s| ==> IsSpace(s[k])
    ensures TrimSpace(s) == TrimSpace(s[..n])
  {
    if n == 0 {
      AllSpace(s);
    } else if IsSpace(s[0]) {
      assert s[1..][..n - 1] == s[..n][1..];
      TrimOver(s[1..], n - 1);
    } else {
      TrimRightOver(s, n);
    }
  }

  lemma {:induction false} AllSpace(s: string)
    requires forall k :: 0 <= k < |s| ==> IsSpace(s[k])
    ensures SkipSpace(s) == []
  {
    if s != [] { AllSpace(s[1..]); }
  }

  lemma LineSpaceIsSpace(c: char)
    ensures LineSpace(c) ==> IsSpace(c)
  {
    assert SPACES[0] == ' ' && SPACES[1] == '\t' && SPACES[3] == '\r';
  }

  // A line is a plan line exactly when text follows its first arrow, which
  // stands at its indent; its content is that text, trimmed.
  lemma ReadsExactly(raw: string, i: nat)
    requires ArrowAt(raw, i) && forall j :: 0 <= j < i ==> !ArrowAt(raw, j)
    ensures ReadLine(raw) == if TextFrom(raw, i + 3) then Some(Line(i, TrimSpace(raw[i + 3..]))) else None
  {
    var line := TrimEnd(raw);
    TrimEndCuts(raw);
    forall j | ArrowAt(line, j) ensures ArrowAt(raw, j) {
      assert line == raw[..|line|];
    }
    if TextFrom(raw, i + 3) {
      assert i + 3 < |line|;
      FirstArrow(line, i);
      var rest := raw[i + 3..];
      assert rest[..|line| - i - 3] == line[i + 3..];
      forall c ensures LineSpace(c) ==> IsSpace(c) { LineSpaceIsSpace(c); }
      TrimOver(rest, |line| - i - 3);
    } else {
      EndsBefore(raw, line, i);
      NoArrowFound(line);
    }
  }

  lemma EndsBefore(raw: string, line: string, i: nat)
    requires ArrowAt(raw, i) && line <= raw && !TextFrom(raw, i + 3)
    requires forall j :: 0 <= j < i ==> !ArrowAt(raw, j)
    requires line == [] || !LineSpace(line[|line| - 1])
    ensures forall j :: !ArrowAt(line, j)
  {
    assert line != [] ==> raw[|line| - 1] == line[|line| - 1];
    assert forall j :: 0 <= j < |line| ==> line[j] == raw[j];
    forall j ensures ArrowAt(line, j) ==> ArrowAt(raw, j) && j + 3 <= |line| <= i + 2 {
    }
  }

  lemma NoArrowNoLine(raw: string)
    requires forall i :: !ArrowAt(raw, i)
    ensures ReadLine(raw) == None
  {
    var line := TrimEnd(raw);
    TrimEndCuts(raw);
    forall i ensures ArrowAt(line, i) ==> ArrowAt(raw, i) {
    }
    NoArrowFound(line);
  }

  lemma ReadsFirst(raws: seq<string>)
    requires raws != []
    ensures ReadLines(raws) == ReadLines([raws[0]]) + ReadLines(raws[1..])
    ensures ReadLines([raws[0]]) == if ReadLine(raws[0]).Some? then [ReadLine(raws[0]).value] else []
  {
    assert [raws[0]][1..] == [];
    assert [] + ReadLines(raws[1..]) == ReadLines(raws[1..]);
  }

  // Lines are read one by one, in order.
  lemma {:induction false} ReadsEach(raws: seq<string>, more: seq<string>)
    ensures ReadLines(raws + more) == ReadLines(raws) + ReadLines(more)
  {
    var both := raws + more;
    if raws == [] {
      assert both == more;
    } else {
      assert both[1..] == raws[1..] + more && both[0] == raws[0];
      ReadsEach(raws[1..], more);
      ReadsFirst(raws);
      ReadsFirst(both);
      AssociateLines(ReadLines([raws[0]]), ReadLines(raws[1..]), ReadLines(more));
    }
  }

  lemma AssociateLines(a: seq<Line>, b: seq<Line>, c: seq<Line>)
    ensures (a + b) + c == a + (b + c)
  {
  }

  // Line p is the last before line j that is indented less.
  predicate Encloses(lines: seq<Line>, p: nat, j: nat)
    requires j < |lines|
  {
    p < j && lines[p].indent < lines[j].indent && forall k :: p < k < j ==> lines[k].indent >= lines[j].indent
  }

  lemma ParentExactly(lines: seq<Line>, j: nat, p: nat)
    requires j < |lines|
    ensures Parent(lines, j) == Some(p) <==> Encloses(lines, p, j)
    ensures Parent(lines, j) == None <==> forall k :: 0 <= k < j ==> lines[k].indent >= lines[j].indent
  {
    NearestMeaning(lines, j, j - 1);
    if Encloses(lines, p, j) {
      NearestIs(lines, j, j - 1, Some(p));
    }
  }

  // A line's children are, in order, the lines it encloses.
  lemma {:induction false} KidsExactly(lines: seq<Line>, i: nat, n: nat)
    requires n <= |lines|
    ensures forall j :: 0 <= j < n ==> (j in Kids(lines, i, n) <==> Encloses(lines, i, j))
    ensures forall a, b :: 0 <= a < b < |Kids(lines, i, n)| ==> Kids(lines, i, n)[a] < Kids(lines, i, n)[b]
  {
    if n > 0 {
      KidsExactly(lines, i, n - 1);
      ParentExactly(lines, n - 1, i);
      var before := Kids(lines, i, n - 1);
      assert forall a :: 0 <= a < |before| ==> before[a] in before;
    }
  }

  // No earlier line is indented less.
  predicate Outermost(lines: seq<Line>, j: nat)
    requires j < |lines|
  {
    forall k :: 0 <= k < j ==> lines[k].indent >= lines[j].indent
  }

  // The root is the last outermost line.
  lemma {:induction false} LastRootExactly(lines: seq<Line>, n: nat, r: nat)
    requires n <= |lines|
    ensures LastRoot(lines, n) == Some(r) <==>
              r < n && Outermost(lines, r) && forall j :: r < j < n ==> !Outermost(lines, j)
  {
    if n > 0 {
      LastRootExactly(lines, n - 1, r);
      ParentExactly(lines, n - 1, r);
      assert Parent(lines, n - 1) == None <==> Outermost(lines, n - 1);
    }
  }
}
