/** The configuration block parser of slscore/conf.cpp: a recursive descent that hangs each new block under the first
    free link of a first-child/next-sibling tree. */
module ConfParser {
  import opened Common
  import opened ConfLines

  /** What the server was compiled to understand: the block names, and which value a setting of a block may take. */
  datatype Schema = Schema(blocks: set<string>, accepts: (string, string, string) -> bool)

  /** `NoRuntime`: a setting before the first block, whose command table is read through a null pointer. */
  datatype Ret = Ok | Error | NoRuntime

  /** A block object; the links are the numbers of other objects. Block 0 is the static root. */
  datatype Block = Block(name: string, settings: seq<Setting>, child: Option<nat>, sibling: Option<nat>)

  const ROOT := Block("", [], None, None)

  function Linked(b: Block, child: bool, k: Option<nat>): Block {
    if child then b.(child := k) else b.(sibling := k)
  }

  function Set(nodes: seq<Block>, b: nat, s: Setting): seq<Block>
    requires b < |nodes|
  {
    nodes[b := nodes[b].(settings := nodes[b].settings + [s])]
  }

  /** A new block, hung under block b. */
  function Hung(nodes: seq<Block>, b: nat, child: bool, name: string): seq<Block>
    requires b < |nodes|
  {
    nodes[b := Linked(nodes[b], child, Some(|nodes|))] + [Block(name, [], None, None)]
  }

  predicate Accepted(schema: Schema, kind: Option<string>, s: Setting) {
    kind.Some? && schema.accepts(kind.value, s.name, s.value)
  }

  // ----- the recursion on objects

  datatype Result = Result(ret: Ret, lines: seq<string>, nodes: seq<Block>, child: bool)

  /** One frame of the recursion from the top of its loop. `b` is the block that gets the next setting or link, `child`
      the flag all frames share, `kind` the runtime of the last block this frame opened or was opened for, `last` the
      last code line. */
  function Frame(schema: Schema, lines: seq<string>, nodes: seq<Block>, b: nat, child: bool, kind: Option<string>,
                 last: string, ret: Ret): (r: Result)
    requires b < |nodes|
    ensures |r.lines| <= |lines| && |r.nodes| >= |nodes|
    decreases |lines|
  {
    if lines == [] then Result(ret, lines, nodes, child)
    else if Clean(lines[0]) == "" then Frame(schema, lines[1..], nodes, b, child, kind, last, ret)
    else
      match Classify(Clean(lines[0]))
      case BadLine => Result(Error, lines[1..], nodes, child)
      case SettingLine(s, text) =>
        if kind == None then Result(NoRuntime, lines[1..], nodes, child)
        else if !Accepted(schema, kind, s) then Result(Error, lines[1..], nodes, child)
        else Frame(schema, lines[1..], Set(nodes, b, s), b, child, kind, text, ret)
      case OpenLine(text) =>
        var name := if text == "" then last else text;
        if name == "" || name !in schema.blocks then Result(Error, lines[1..], nodes, child)
        else
          var inner := Frame(schema, lines[1..], Hung(nodes, b, child, name), |nodes|, true, Some(name), "", Error);
          if inner.ret != Ok then inner
          else Frame(schema, inner.lines, inner.nodes, |nodes|, inner.child, Some(name), text, Ok)
      case CloseLine => Result(Ok, lines[1..], nodes, false)
  }

  // ----- the tree

  /** A block, its first child and its next sibling. */
  datatype Tree = Nil | Node(name: string, settings: seq<Setting>, child: Tree, sibling: Tree)

  datatype Built = Built(ret: Ret, code: seq<string>, settings: seq<Setting>, tree: Tree)

  /** The same frame, reading code lines and returning what it hangs under its block. */
  function Build(schema: Schema, code: seq<string>, kind: Option<string>, last: string, ret: Ret): (r: Built)
    ensures |r.code| <= |code|
    decreases |code|
  {
    if code == [] then Built(ret, code, [], Nil)
    else
      match Classify(code[0])
      case BadLine => Built(Error, code[1..], [], Nil)
      case SettingLine(s, text) =>
        if kind == None then Built(NoRuntime, code[1..], [], Nil)
        else if !Accepted(schema, kind, s) then Built(Error, code[1..], [], Nil)
        else
          var after := Build(schema, code[1..], kind, text, ret);
          after.(settings := [s] + after.settings)
      case OpenLine(text) =>
        var name := if text == "" then last else text;
        if name == "" || name !in schema.blocks then Built(Error, code[1..], [], Nil)
        else
          var inner := Build(schema, code[1..], Some(name), "", Error);
          if inner.ret != Ok then Built(inner.ret, inner.code, [], Node(name, inner.settings, inner.tree, Nil))
          else
            var after := Build(schema, inner.code, Some(name), text, Ok);
            Built(after.ret, after.code, [], Node(name, inner.settings + after.settings, inner.tree, after.tree))
      case CloseLine => Built(Ok, code[1..], [], Nil)
  }

  /** The objects of a tree numbered from `at` in the order they are created. */
  function Layout(t: Tree, at: nat): (r: seq<Block>)
    ensures t.Node? <==> r != []
  {
    match t
    case Nil => []
    case Node(name, settings, child, sibling) =>
      var below := Layout(child, at + 1);
      var next := at + 1 + |below|;
      [Block(name, settings, To(child, at + 1), To(sibling, next))] + below + Layout(sibling, next)
  }

  function To(t: Tree, at: nat): Option<nat> {
    if t.Nil? then None else Some(at)
  }

  /** Block b with more settings and the first of a tree hung under it. */
  function Grown(b: Block, child: bool, settings: seq<Setting>, t: Tree, at: nat): Block {
    var c := b.(settings := b.settings + settings);
    if t.Nil? then c else Linked(c, child, Some(at))
  }

  function Grow(nodes: seq<Block>, b: nat, child: bool, settings: seq<Setting>, t: Tree): seq<Block>
    requires b < |nodes|
  {
    nodes[b := Grown(nodes[b], child, settings, t, |nodes|)] + Layout(t, |nodes|)
  }

  lemma GrowNothing(nodes: seq<Block>, b: nat, child: bool)
    requires b < |nodes|
    ensures Grow(nodes, b, child, [], Nil) == nodes
  {
    assert nodes[b].settings + [] == nodes[b].settings;
  }

  lemma GrowAfterSet(nodes: seq<Block>, b: nat, child: bool, s: Setting, settings: seq<Setting>, t: Tree)
    requires b < |nodes|
    ensures Grow(Set(nodes, b, s), b, child, settings, t) == Grow(nodes, b, child, [s] + settings, t)
  {
    hide Layout;
    var before := nodes[b].settings;
    assert before + [s] + settings == before + ([s] + settings);
    assert Grown(Set(nodes, b, s)[b], child, settings, t, |nodes|)
        == Grown(nodes[b], child, [s] + settings, t, |nodes|);
  }

  lemma GrowChildren(nodes: seq<Block>, b: nat, child: bool, name: string, inner: seq<Setting>, below: Tree)
    requires b < |nodes|
    ensures
      var k := |nodes|;
      Grow(Hung(nodes, b, child, name), k, true, inner, below)
      == nodes[b := Linked(nodes[b], child, Some(k))] + [Block(name, inner, To(below, k + 1), None)]
         + Layout(below, k + 1)
  {
    hide Layout;
    var k, hung := |nodes|, Hung(nodes, b, child, name);
    assert [] + inner == inner;
    var me := Block(name, inner, To(below, k + 1), None);
    assert Grown(hung[k], true, inner, below, k + 1) == me;
    assert hung[k := me] == nodes[b := Linked(nodes[b], child, Some(k))] + [me];
  }

  lemma ReplaceOne(a: seq<Block>, x: Block, y: Block, c: seq<Block>)
    ensures (a + [x] + c)[|a| := y] == a + [y] + c
  {
  }

  lemma LayoutNode(name: string, settings: seq<Setting>, below: Tree, beside: Tree, at: nat)
    ensures
      var next := at + 1 + |Layout(below, at + 1)|;
      Layout(Node(name, settings, below, beside), at)
      == [Block(name, settings, To(below, at + 1), To(beside, next))] + Layout(below, at + 1) + Layout(beside, next)
  {
  }

  /** A new block that grows children and then a sibling is one more node. */
  lemma GrowBlock(nodes: seq<Block>, b: nat, child: bool, name: string,
                  inner: seq<Setting>, below: Tree, later: seq<Setting>, beside: Tree)
    requires b < |nodes|
    ensures
      var grown := Grow(Hung(nodes, b, child, name), |nodes|, true, inner, below);
      && grown[|nodes|].sibling == None
      && Grow(grown, |nodes|, false, later, beside)
         == Grow(nodes, b, child, [], Node(name, inner + later, below, beside))
  {
    hide Layout;
    var k := |nodes|;
    GrowChildren(nodes, b, child, name, inner, below);
    LayoutNode(name, inner + later, below, beside, k);
    var front, kids := nodes[b := Linked(nodes[b], child, Some(k))], Layout(below, k + 1);
    var next := k + 1 + |kids|;
    var me := Block(name, inner + later, To(below, k + 1), To(beside, next));
    ReplaceOne(front, Block(name, inner, To(below, k + 1), None), me, kids);
    assert nodes[b].settings + [] == nodes[b].settings;
    assert front + [me] + kids + Layout(beside, next) == front + ([me] + kids + Layout(beside, next));
  }

  /** For every text, good or bad: the objects a frame creates are the tree of `Build`, laid out in order, and hang
      under one link of its block; every other link of the older objects stays. */
  lemma {:induction false} FrameBuildsTheTree(schema: Schema, lines: seq<string>, nodes: seq<Block>, b: nat,
                                              child: bool, kind: Option<string>, last: string, ret: Ret)
    requires b < |nodes| && (ret == Ok ==> !child)
    ensures
      var f, t := Frame(schema, lines, nodes, b, child, kind, last, ret), Build(schema, Code(lines), kind, last, ret);
      && f.ret == t.ret && Code(f.lines) == t.code && (f.ret == Ok ==> !f.child)
      && f.nodes == Grow(nodes, b, child, t.settings, t.tree)
    decreases |lines|
  {
    hide Clean, Classify, Code, Layout, Grow, Accepted;
    GrowNothing(nodes, b, child);
    CodeEnd();
    if lines != [] {
      CodeStep(lines);
      var line := Clean(lines[0]);
      if line == "" {
        FrameBuildsTheTree(schema, lines[1..], nodes, b, child, kind, last, ret);
      } else if Classify(line).SettingLine? && Accepted(schema, kind, Classify(line).setting) {
        SettingBuilds(schema, lines, nodes, b, child, kind, last, ret);
      } else if Classify(line).OpenLine? {
        OpenBuilds(schema, lines, nodes, b, child, kind, last, ret);
      }
    }
  }

  lemma SettingBuilds(schema: Schema, lines: seq<string>, nodes: seq<Block>, b: nat, child: bool,
                      kind: Option<string>, last: string, ret: Ret)
    requires b < |nodes| && (ret == Ok ==> !child)
    requires lines != [] && Classify(Clean(lines[0])).SettingLine? && Clean(lines[0]) != ""
    requires Accepted(schema, kind, Classify(Clean(lines[0])).setting)
    ensures
      var f, t := Frame(schema, lines, nodes, b, child, kind, last, ret), Build(schema, Code(lines), kind, last, ret);
      && f.ret == t.ret && Code(f.lines) == t.code && (f.ret == Ok ==> !f.child)
      && f.nodes == Grow(nodes, b, child, t.settings, t.tree)
    decreases |lines|, 0
  {
    hide Clean, Classify, Code, Layout, Grow;
    CodeStep(lines);
    var l := Classify(Clean(lines[0]));
    var after := Build(schema, Code(lines[1..]), kind, l.text, ret);
    FrameBuildsTheTree(schema, lines[1..], Set(nodes, b, l.setting), b, child, kind, l.text, ret);
    GrowAfterSet(nodes, b, child, l.setting, after.settings, after.tree);
  }

  lemma OpenBuilds(schema: Schema, lines: seq<string>, nodes: seq<Block>, b: nat, child: bool,
                   kind: Option<string>, last: string, ret: Ret)
    requires b < |nodes| && (ret == Ok ==> !child)
    requires lines != [] && Classify(Clean(lines[0])).OpenLine? && Clean(lines[0]) != ""
    ensures
      var f, t := Frame(schema, lines, nodes, b, child, kind, last, ret), Build(schema, Code(lines), kind, last, ret);
      && f.ret == t.ret && Code(f.lines) == t.code && (f.ret == Ok ==> !f.child)
      && f.nodes == Grow(nodes, b, child, t.settings, t.tree)
    decreases |lines|, 0
  {
    hide Clean, Classify, Code, Layout, Grow;
    CodeStep(lines);
    GrowNothing(nodes, b, child);
    var text := Classify(Clean(lines[0])).name;
    var name := if text == "" then last else text;
    if name != "" && name in schema.blocks {
      var k, hung := |nodes|, Hung(nodes, b, child, name);
      FrameBuildsTheTree(schema, lines[1..], hung, k, true, Some(name), "", Error);
      var inner := Build(schema, Code(lines[1..]), Some(name), "", Error);
      var grown := Frame(schema, lines[1..], hung, k, true, Some(name), "", Error);
      if inner.ret != Ok {
        GrowBlock(nodes, b, child, name, inner.settings, inner.tree, [], Nil);
        GrowNothing(grown.nodes, k, false);
        assert inner.settings + [] == inner.settings;
      } else {
        var after := Build(schema, inner.code, Some(name), text, Ok);
        GrowBlock(nodes, b, child, name, inner.settings, inner.tree, after.settings, after.tree);
        FrameBuildsTheTree(schema, grown.lines, grown.nodes, k, false, Some(name), text, Ok);
      }
    }
  }
}
