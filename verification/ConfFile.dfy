/** The parser of slscore/conf.cpp as it runs: one object for the open file, the blocks it has created and the `child`
    flag that all recursive calls share by reference. */
module ConfFile {
  import opened Common
  import opened ConfLines
  import opened ConfParser
  import ConfTree

  /** One line of a frame. */
  lemma FrameStep(schema: Schema, lines: seq<string>, i: nat, nodes: seq<Block>, b: nat, child: bool,
                  kind: Option<string>, last: string, ret: Ret)
    requires i < |lines| && b < |nodes|
    ensures
      var goal := Frame(schema, lines[i..], nodes, b, child, kind, last, ret);
      var rest, text := lines[i + 1..], Clean(lines[i]);
      && (text == "" ==> goal == Frame(schema, rest, nodes, b, child, kind, last, ret))
      && (text != "" ==>
        match Classify(text)
        case BadLine => goal == Result(Error, rest, nodes, child)
        case CloseLine => goal == Result(Ok, rest, nodes, false)
        case SettingLine(s, body) =>
          && (kind == None ==> goal == Result(NoRuntime, rest, nodes, child))
          && (kind != None && !Accepted(schema, kind, s) ==> goal == Result(Error, rest, nodes, child))
          && (kind != None && Accepted(schema, kind, s) ==>
               goal == Frame(schema, rest, Set(nodes, b, s), b, child, kind, body, ret))
        case OpenLine(body) =>
          var name := if body == "" then last else body;
          if name == "" || name !in schema.blocks then goal == Result(Error, rest, nodes, child)
          else
            var inner := Frame(schema, rest, Hung(nodes, b, child, name), |nodes|, true, Some(name), "", Error);
            if inner.ret != Ok then goal == inner
            else goal == Frame(schema, inner.lines, inner.nodes, |nodes|, inner.child, Some(name), body, Ok))
  {
    hide Clean, Classify, Accepted, Hung;
    assert lines[i..][0] == lines[i] && lines[i..][1..] == lines[i + 1..];
  }

  lemma FrameEnd(schema: Schema, nodes: seq<Block>, b: nat, child: bool, kind: Option<string>, last: string, ret: Ret)
    requires b < |nodes|
    ensures Frame(schema, [], nodes, b, child, kind, last, ret) == Result(ret, [], nodes, child)
  {
  }

  class Parser {
    const lines: seq<string>
    var line: nat
    var nodes: seq<Block>
    var child: bool

    constructor (lines: seq<string>)
      ensures this.lines == lines && line == 0 && nodes == [ROOT] && child
    {
      this.lines, line, nodes, child := lines, 0, [ROOT], true;
    }

    ghost predicate Valid()
      reads this
    {
      line <= |lines|
    }

    /** What is left to read, and what has been built. */
    ghost function State(ret: Ret): Result
      requires Valid()
      reads this
    {
      Result(ret, lines[line..], nodes, child)
    }

    /** `sls_conf_parse_block` for block `b0`, whose runtime is `kind0`. */
    method ParseBlock(schema: Schema, b0: nat, kind0: Option<string>) returns (ret: Ret)
      requires Valid() && b0 < |nodes|
      modifies this
      ensures Valid() && line >= old(line)
      ensures State(ret) == Frame(schema, old(lines[line..]), old(nodes), b0, old(child), kind0, "", Error)
      decreases |lines| - line, 0
    {
      hide Clean, Classify, Accepted, Frame, Hung;
      ghost var goal := Frame(schema, lines[line..], nodes, b0, child, kind0, "", Error);
      ret := Error;
      var b: nat, kind, last := b0, kind0, "";
      while line < |lines|
        invariant Valid() && line >= old(line) && b < |nodes|
        invariant Frame(schema, lines[line..], nodes, b, child, kind, last, ret) == goal
        decreases |lines| - line
      {
        FrameStep(schema, lines, line, nodes, b, child, kind, last, ret);
        var text := Clean(lines[line]);
        line := line + 1;
        if text != "" {
          match Classify(text)
          case BadLine => return Error;
          case SettingLine(s, body) =>
            if kind == None {
              return NoRuntime;
            }
            if !Accepted(schema, kind, s) {
              return Error;
            }
            nodes := Set(nodes, b, s);
            last := body;
          case OpenLine(body) =>
            var name := if body == "" then last else body;
            if name == "" || name !in schema.blocks {
              return Error;
            }
            var k := |nodes|;
            ret := OpenBlock(schema, b, name);
            if ret != Ok {
              return ret;
            }
            b, kind, last := k, Some(name), body;
          case CloseLine =>
            child := false;
            return Ok;
        }
      }
      assert lines[line..] == [];
      FrameEnd(schema, nodes, b, child, kind, last, ret);
    }

    /** A new block under the first free link of `b`, and the frame that parses it. */
    method OpenBlock(schema: Schema, b: nat, name: string) returns (ret: Ret)
      requires Valid() && b < |nodes|
      modifies this
      ensures Valid() && line >= old(line) && |nodes| > old(|nodes|)
      ensures State(ret) == Frame(schema, old(lines[line..]), Hung(old(nodes), b, old(child), name), old(|nodes|), true,
                                  Some(name), "", Error)
      decreases |lines| - line, 1
    {
      hide Frame;
      var block := |nodes|;
      var parent := if child then nodes[b].(child := Some(block)) else nodes[b].(sibling := Some(block));
      nodes := nodes[b := parent] + [Block(name, [], None, None)];
      child := true;
      ret := ParseBlock(schema, block, Some(name));
    }
  }

  /** `sls_conf_open` on a file that could be opened. */
  method OpenConf(schema: Schema, lines: seq<string>) returns (ret: Ret, nodes: seq<Block>)
    ensures ret == ConfTree.Parse(schema, lines).ret && nodes == ConfTree.Parse(schema, lines).nodes
  {
    var parser := new Parser(lines);
    assert parser.lines[parser.line..] == lines;
    ret := parser.ParseBlock(schema, 0, None);
    nodes := parser.nodes;
  }
}
