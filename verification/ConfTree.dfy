/** What the parser of ConfParser makes of printed trees, and how slscore/conf.cpp frees the blocks again. */
module ConfTree {
  import opened Common
  import opened ConfLines
  import opened ConfParser

  /** `sls_conf_open`: the root is the block being parsed, as if it were still waiting for its first child. */
  function Parse(schema: Schema, lines: seq<string>): (r: Result) {
    Frame(schema, lines, [ROOT], 0, true, None, "", Error)
  }

  // ----- following the links

  /** Every link goes to a later block. */
  predicate Ascending(nodes: seq<Block>) {
    forall i :: 0 <= i < |nodes| ==> After(nodes[i].child, i, |nodes|) && After(nodes[i].sibling, i, |nodes|)
  }

  predicate After(link: Option<nat>, i: int, end: int) {
    link.Some? ==> i < link.value < end
  }

  function Read(nodes: seq<Block>, link: Option<nat>): Tree
    requires Ascending(nodes) && After(link, -1, |nodes|)
    decreases if link.None? then 0 else |nodes| - link.value
  {
    if link.None? then Nil
    else
      var b := nodes[link.value];
      Node(b.name, b.settings, Read(nodes, b.child), Read(nodes, b.sibling))
  }

  /** `sls_conf_release`: the blocks in the order they are deleted. */
  function Release(nodes: seq<Block>, i: nat): seq<nat>
    requires Ascending(nodes) && i < |nodes|
    decreases |nodes| - i
  {
    (if nodes[i].child.Some? then Release(nodes, nodes[i].child.value) else [])
    + (if nodes[i].sibling.Some? then Release(nodes, nodes[i].sibling.value) else [])
    + [i]
  }

  function Ids(at: nat, n: nat): (ids: seq<nat>)
    ensures |ids| == n && forall k :: 0 <= k < n ==> ids[k] == at + k
  {
    seq(n, k requires 0 <= k => at + k)
  }

  predicate Carries(nodes: seq<Block>, t: Tree, at: nat) {
    var l := Layout(t, at);
    at + |l| <= |nodes| && nodes[at..at + |l|] == l
  }

  /** Numbered from `at`, the blocks of a list link only to later ones of the list. */
  predicate AscendsFrom(l: seq<Block>, at: nat) {
    forall i :: 0 <= i < |l| ==> After(l[i].child, at + i, at + |l|) && After(l[i].sibling, at + i, at + |l|)
  }

  lemma {:induction false} LayoutAscends(t: Tree, at: nat)
    ensures AscendsFrom(Layout(t, at), at)
  {
    if t.Node? {
      var l, below := Layout(t, at), Layout(t.child, at + 1);
      var next := at + 1 + |below|;
      var beside := Layout(t.sibling, next);
      LayoutAscends(t.child, at + 1);
      LayoutAscends(t.sibling, next);
      assert |l| == 1 + |below| + |beside|;
      forall i | 0 <= i < |l|
        ensures After(l[i].child, at + i, at + |l|) && After(l[i].sibling, at + i, at + |l|)
      {
        if 0 < i <= |below| {
          assert l[i] == below[i - 1];
        } else if i > |below| {
          assert l[i] == beside[i - 1 - |below|];
        }
      }
    }
  }

  lemma CarriesParts(nodes: seq<Block>, t: Tree, at: nat)
    requires t.Node? && Carries(nodes, t, at)
    ensures at < |nodes|
    ensures var below := Layout(t.child, at + 1);
      var next := at + 1 + |below|;
      && nodes[at] == Block(t.name, t.settings, To(t.child, at + 1), To(t.sibling, next))
      && Carries(nodes, t.child, at + 1) && Carries(nodes, t.sibling, next)
      && |Layout(t, at)| == 1 + |below| + |Layout(t.sibling, next)|
  {
    hide Layout;
    var l, below := Layout(t, at), Layout(t.child, at + 1);
    var next := at + 1 + |below|;
    var beside := Layout(t.sibling, next);
    LayoutNode(t.name, t.settings, t.child, t.sibling, at);
    SplitSlice(nodes, at, l[0], below, beside);
  }

  lemma SplitSlice(nodes: seq<Block>, at: nat, x: Block, a: seq<Block>, b: seq<Block>)
    requires at + 1 + |a| + |b| <= |nodes| && nodes[at..at + 1 + |a| + |b|] == [x] + a + b
    ensures nodes[at] == x
    ensures nodes[at + 1..at + 1 + |a|] == a && nodes[at + 1 + |a|..at + 1 + |a| + |b|] == b
  {
    var n := 1 + |a| + |b|;
    SliceOfSlice(nodes, at, at + n, 1, 1 + |a|);
    SliceOfSlice(nodes, at, at + n, 1 + |a|, n);
    assert ([x] + a + b)[0] == x && ([x] + a + b)[1..1 + |a|] == a && ([x] + a + b)[1 + |a|..n] == b;
    assert nodes[at] == nodes[at..at + n][0];
  }

  lemma ReadStep(nodes: seq<Block>, at: nat)
    requires Ascending(nodes) && at < |nodes|
    ensures After(nodes[at].child, -1, |nodes|) && After(nodes[at].sibling, -1, |nodes|)
    ensures Read(nodes, Some(at))
         == Node(nodes[at].name, nodes[at].settings, Read(nodes, nodes[at].child), Read(nodes, nodes[at].sibling))
  {
  }

  lemma {:induction false} ReadsBack(nodes: seq<Block>, t: Tree, at: nat)
    requires Ascending(nodes) && Carries(nodes, t, at)
    ensures After(To(t, at), -1, |nodes|) && Read(nodes, To(t, at)) == t
  {
    hide Layout, Carries, Ascending;
    if t.Node? {
      CarriesParts(nodes, t, at);
      ReadStep(nodes, at);
      ReadsBack(nodes, t.child, at + 1);
      ReadsBack(nodes, t.sibling, at + 1 + |Layout(t.child, at + 1)|);
    }
  }

  lemma IdsSplit(at: nat, a: nat, b: nat)
    ensures Ids(at, 1 + a + b) == [at] + Ids(at + 1, a) + Ids(at + 1 + a, b)
  {
  }

  function ReleaseLink(nodes: seq<Block>, link: Option<nat>): seq<nat>
    requires Ascending(nodes) && After(link, -1, |nodes|)
  {
    if link.Some? then Release(nodes, link.value) else []
  }

  lemma ReleaseStep(nodes: seq<Block>, at: nat)
    requires Ascending(nodes) && at < |nodes|
    ensures After(nodes[at].child, -1, |nodes|) && After(nodes[at].sibling, -1, |nodes|)
    ensures ReleaseLink(nodes, Some(at))
         == ReleaseLink(nodes, nodes[at].child) + ReleaseLink(nodes, nodes[at].sibling) + [at]
  {
  }

  /** The blocks of a tree are all deleted, each once. */
  lemma {:induction false} ReleasesEachOnce(nodes: seq<Block>, t: Tree, at: nat)
    requires Ascending(nodes) && Carries(nodes, t, at)
    ensures After(To(t, at), -1, |nodes|)
    ensures SameItems(ReleaseLink(nodes, To(t, at)), Ids(at, |Layout(t, at)|))
  {
    hide Layout, Carries, Ids, SameItems, Ascending, Release;
    if t.Nil? {
      NoIds(at);
    } else {
      CarriesParts(nodes, t, at);
      var below := |Layout(t.child, at + 1)|;
      var next := at + 1 + below;
      var beside := |Layout(t.sibling, next)|;
      ReleasesEachOnce(nodes, t.child, at + 1);
      ReleasesEachOnce(nodes, t.sibling, next);
      var first, second := ReleaseLink(nodes, To(t.child, at + 1)), ReleaseLink(nodes, To(t.sibling, next));
      ReleaseStep(nodes, at);
      IdsSplit(at, below, beside);
      Rearranged(first, second, at, Ids(at + 1, below), Ids(next, beside));
    }
  }

  /** Every link of a block that is deleted leads to one that was deleted before. */
  ghost predicate LinksGoFirst(nodes: seq<Block>, released: seq<nat>) {
    forall x :: 0 <= x < |released| && released[x] < |nodes| ==>
      && GoesFirst(nodes[released[x]].child, released, x) && GoesFirst(nodes[released[x]].sibling, released, x)
  }

  ghost predicate GoesFirst(link: Option<nat>, released: seq<nat>, x: nat)
    requires x <= |released|
  {
    link.Some? ==> link.value in released[..x]
  }

  lemma JoinGoesFirst(nodes: seq<Block>, a: seq<nat>, b: seq<nat>, at: nat)
    requires at < |nodes| && LinksGoFirst(nodes, a) && LinksGoFirst(nodes, b)
    requires nodes[at].child.Some? ==> nodes[at].child.value in a
    requires nodes[at].sibling.Some? ==> nodes[at].sibling.value in b
    ensures LinksGoFirst(nodes, a + b + [at])
  {
    var all := a + b + [at];
    forall x | 0 <= x < |all| && all[x] < |nodes|
      ensures GoesFirst(nodes[all[x]].child, all, x) && GoesFirst(nodes[all[x]].sibling, all, x)
    {
      if x < |a| {
        assert all[..x] == a[..x];
      } else if x < |a| + |b| {
        assert all[..x] == a + b[..x - |a|] && all[x] == b[x - |a|];
      } else {
        assert all[..x] == a + b;
      }
    }
  }

  /** A block is deleted only after everything it links to, so that no link to a deleted block is followed. */
  lemma {:induction false} ReleasesLinksFirst(nodes: seq<Block>, i: nat)
    requires Ascending(nodes) && i < |nodes|
    ensures LinksGoFirst(nodes, Release(nodes, i)) && i in Release(nodes, i)
    decreases |nodes| - i
  {
    hide LinksGoFirst;
    NothingGoesFirst(nodes);
    var b := nodes[i];
    if b.child.Some? {
      ReleasesLinksFirst(nodes, b.child.value);
    }
    if b.sibling.Some? {
      ReleasesLinksFirst(nodes, b.sibling.value);
    }
    JoinGoesFirst(nodes, if b.child.Some? then Release(nodes, b.child.value) else [],
                  if b.sibling.Some? then Release(nodes, b.sibling.value) else [], i);
  }

  lemma NothingGoesFirst(nodes: seq<Block>)
    ensures LinksGoFirst(nodes, [])
  {
  }

  predicate SameItems(a: seq<nat>, b: seq<nat>) {
    multiset(a) == multiset(b)
  }

  lemma NoIds(at: nat)
    ensures Ids(at, 0) == [] && Layout(Nil, at) == [] && SameItems([], [])
  {
  }

  lemma Rearranged(a: seq<nat>, b: seq<nat>, x: nat, c: seq<nat>, d: seq<nat>)
    requires SameItems(a, c) && SameItems(b, d)
    ensures SameItems(a + b + [x], [x] + c + d)
  {
  }

  lemma JoinAscends(nodes: seq<Block>, link: Option<nat>, l: seq<Block>)
    requires nodes != [] && Ascending(nodes) && AscendsFrom(l, |nodes|)
    requires After(link, 0, |nodes| + |l|)
    ensures Ascending(nodes[0 := nodes[0].(child := link)] + l)
  {
    var n, joined := |nodes|, nodes[0 := nodes[0].(child := link)] + l;
    forall i | 0 <= i < |joined|
      ensures After(joined[i].child, i, |joined|) && After(joined[i].sibling, i, |joined|)
    {
      if i < n {
        assert After(nodes[i].child, i, n) && After(nodes[i].sibling, i, n);
      } else {
        assert joined[i] == l[i - n];
        assert After(l[i - n].child, n + (i - n), n + |l|) && After(l[i - n].sibling, n + (i - n), n + |l|);
      }
    }
  }

  lemma FirstLink(nodes: seq<Block>)
    requires nodes != [] && Ascending(nodes)
    ensures After(nodes[0].child, 0, |nodes|)
  {
  }

  /** The blocks of a tree, hung under block 0 of older ones. */
  lemma GrownCarries(nodes: seq<Block>, t: Tree)
    requires nodes != [] && Ascending(nodes)
    ensures var grown := Grow(nodes, 0, true, [], t);
      && Ascending(grown) && Carries(grown, t, |nodes|) && |grown| == |nodes| + |Layout(t, |nodes|)|
      && grown[0].child == (if t.Nil? then nodes[0].child else Some(|nodes|))
  {
    hide Layout, Ascending, AscendsFrom;
    var n := |nodes|;
    var l := Layout(t, n);
    var link := if t.Nil? then nodes[0].child else Some(n);
    assert t.Node? ==> l != [];
    LayoutAscends(t, n);
    FirstLink(nodes);
    JoinAscends(nodes, link, l);
    assert nodes[0].settings + [] == nodes[0].settings;
    var joined := nodes[0 := nodes[0].(child := link)] + l;
    assert joined[n..n + |l|] == l;
    assert Grow(nodes, 0, true, [], t) == joined;
  }

  lemma RootCarries(t: Tree)
    ensures var nodes := Grow([ROOT], 0, true, [], t);
      && Ascending(nodes) && Carries(nodes, t, 1) && nodes[0].child == To(t, 1)
      && |nodes| == 1 + |Layout(t, 1)|
  {
    hide Layout, Grow;
    GrownCarries([ROOT], t);
  }

  // ----- printed trees

  function Texts(settings: seq<Setting>): seq<string> {
    if settings == [] then [] else [SettingText(settings[0])] + Texts(settings[1..])
  }

  /** The code lines of a tree, each block with its settings before its nested blocks. */
  function Print(t: Tree): seq<string> {
    match t
    case Nil => []
    case Node(name, settings, child, sibling) =>
      [OpenText(name)] + Texts(settings) + Print(child) + ["}"] + Print(sibling)
  }

  predicate ValidTree(schema: Schema, t: Tree) {
    match t
    case Nil => true
    case Node(name, settings, child, sibling) =>
      && IsTidy(name) && name in schema.blocks
      && (forall s :: s in settings ==> IsPrintable(s) && Accepted(schema, Some(name), s))
      && ValidTree(schema, child) && ValidTree(schema, sibling)
  }

  predicate Ends(rest: seq<string>) {
    rest == [] || rest[0] == "}"
  }

  function Beyond(rest: seq<string>): seq<string> {
    if rest == [] then [] else rest[1..]
  }

  lemma BraceCloses()
    ensures Classify("}") == CloseLine
  {
  }

  lemma BuildOpen(schema: Schema, name: string, code: seq<string>, kind: Option<string>, last: string, ret: Ret)
    requires IsTidy(name) && name in schema.blocks
    ensures
      var inner := Build(schema, code, Some(name), "", Error);
      Build(schema, [OpenText(name)] + code, kind, last, ret)
      == if inner.ret != Ok then Built(inner.ret, inner.code, [], Node(name, inner.settings, inner.tree, Nil))
         else
           var after := Build(schema, inner.code, Some(name), name, Ok);
           Built(after.ret, after.code, [], Node(name, inner.settings + after.settings, inner.tree, after.tree))
  {
    hide Classify, IsTidy;
    OpenTextReads(name);
    assert name != "" by { NotEmpty(name); }
    assert ([OpenText(name)] + code)[1..] == code;
  }

  lemma NotEmpty(s: string)
    requires IsTidy(s)
    ensures s != ""
  {
  }

  lemma BuildSetting(schema: Schema, s: Setting, code: seq<string>, kind: Option<string>, last: string, ret: Ret)
    requires IsPrintable(s) && Accepted(schema, kind, s)
    ensures
      var after := Build(schema, code, kind, s.name + " " + s.value, ret);
      Build(schema, [SettingText(s)] + code, kind, last, ret) == after.(settings := [s] + after.settings)
  {
    hide Classify, IsPrintable;
    SettingTextReads(s);
    assert ([SettingText(s)] + code)[1..] == code;
  }

  lemma BuildEnd(schema: Schema, rest: seq<string>, kind: Option<string>, last: string, ret: Ret)
    requires Ends(rest)
    ensures Build(schema, rest, kind, last, ret) == Built(if rest != [] then Ok else ret, Beyond(rest), [], Nil)
  {
    BraceCloses();
  }

  lemma PrintedShape(t: Tree, rest: seq<string>)
    requires t.Node?
    ensures Print(t) + rest
         == [OpenText(t.name)] + (Texts(t.settings) + Print(t.child) + (["}"] + (Print(t.sibling) + rest)))
  {
    Assoc([OpenText(t.name)], Texts(t.settings), Print(t.child), ["}"], Print(t.sibling), rest);
  }

  lemma Assoc(a: seq<string>, b: seq<string>, c: seq<string>, d: seq<string>, e: seq<string>, f: seq<string>)
    ensures a + b + c + d + e + f == a + (b + c + (d + (e + f)))
  {
  }

  lemma TextsShape(settings: seq<Setting>, code: seq<string>, rest: seq<string>)
    requires settings != []
    ensures Texts(settings) + code + rest == [SettingText(settings[0])] + (Texts(settings[1..]) + code + rest)
  {
  }

  /** A printed tree, up to the end of its frame, is read back. */
  lemma {:induction false} PrintedTreeBuilds(schema: Schema, t: Tree, rest: seq<string>, kind: Option<string>,
                                             last: string, ret: Ret)
    requires ValidTree(schema, t) && Ends(rest)
    ensures Build(schema, Print(t) + rest, kind, last, ret)
         == Built(if rest != [] || t.Node? then Ok else ret, Beyond(rest), [], t)
    decreases t, 0
  {
    hide Build, OpenText, Texts, IsTidy;
    if t.Nil? {
      assert Print(t) + rest == rest;
      BuildEnd(schema, rest, kind, last, ret);
    } else {
      var tail := Print(t.sibling) + rest;
      PrintedShape(t, rest);
      BuildOpen(schema, t.name, Texts(t.settings) + Print(t.child) + (["}"] + tail), kind, last, ret);
      BlockBodyBuilds(schema, t.settings, t.child, ["}"] + tail, t.name, "", Error);
      assert Beyond(["}"] + tail) == tail;
      PrintedTreeBuilds(schema, t.sibling, rest, Some(t.name), t.name, Ok);
      assert t.settings + [] == t.settings;
    }
  }

  lemma {:induction false} BlockBodyBuilds(schema: Schema, settings: seq<Setting>, child: Tree, rest: seq<string>,
                                           name: string, last: string, ret: Ret)
    requires ValidTree(schema, child) && Ends(rest)
    requires forall s :: s in settings ==> IsPrintable(s) && Accepted(schema, Some(name), s)
    ensures Build(schema, Texts(settings) + Print(child) + rest, Some(name), last, ret)
         == Built(if rest != [] || child.Node? then Ok else ret, Beyond(rest), settings, child)
    decreases child, |settings| + 1
  {
    hide Build, SettingText, Print, IsPrintable, Accepted, ValidTree;
    if settings == [] {
      assert Texts(settings) + Print(child) + rest == Print(child) + rest;
      PrintedTreeBuilds(schema, child, rest, Some(name), last, ret);
    } else {
      var s := settings[0];
      TextsShape(settings, Print(child), rest);
      BuildSetting(schema, s, Texts(settings[1..]) + Print(child) + rest, Some(name), last, ret);
      BlockBodyBuilds(schema, settings[1..], child, rest, name, s.name + " " + s.value, ret);
      assert settings == [s] + settings[1..];
    }
  }

  lemma {:induction false} TextsAreClean(settings: seq<Setting>)
    requires forall s :: s in settings ==> IsPrintable(s)
    ensures forall c :: c in Texts(settings) ==> IsClean(c)
  {
    hide Clean, IsPrintable, SettingText;
    if settings != [] {
      SettingTextReads(settings[0]);
      TextsAreClean(settings[1..]);
    }
  }

  lemma BraceIsClean()
    ensures IsClean("}")
  {
  }

  lemma {:induction false} PrintIsClean(schema: Schema, t: Tree)
    requires ValidTree(schema, t)
    ensures forall c :: c in Print(t) ==> IsClean(c)
  {
    hide Clean, OpenText, IsTidy, Texts, Accepted;
    if t.Node? {
      OpenTextReads(t.name);
      TextsAreClean(t.settings);
      PrintIsClean(schema, t.child);
      BraceIsClean();
      PrintIsClean(schema, t.sibling);
      hide IsClean;
    }
  }

  // ----- main results

  lemma CodeLinesReadBack(schema: Schema, t: Tree, lines: seq<string>)
    requires ValidTree(schema, t) && t.Node? && Code(lines) == Print(t)
    ensures var r := Parse(schema, lines);
      && r.ret == Ok && Code(r.lines) == []
      && Ascending(r.nodes) && |r.nodes| > 1 && r.nodes[0].child == Some(1)
      && Read(r.nodes, r.nodes[0].child) == t
      && SameItems(Release(r.nodes, 1), Ids(1, |r.nodes| - 1))
  {
    hide Build, Frame, Grow, Read, Release, SameItems, Print, ValidTree, Layout, Ascending, Ids;
    FrameBuildsTheTree(schema, lines, [ROOT], 0, true, None, "", Error);
    PrintedTreeBuilds(schema, t, [], None, "", Error);
    assert Print(t) + [] == Print(t);
    var nodes := Parse(schema, lines).nodes;
    RootCarries(t);
    ReadsBack(nodes, t, 1);
    ReleasesEachOnce(nodes, t, 1);
  }

  /** A printed tree, dressed with any comments, tabs, outer spaces and blank lines, is accepted and parsed back, and
      releasing it deletes every block once. */
  lemma RoundTrip(schema: Schema, t: Tree, lines: seq<string>)
    requires ValidTree(schema, t) && t.Node? && Dresses(lines, Print(t))
    ensures var r := Parse(schema, lines);
      && r.ret == Ok && Code(r.lines) == []
      && Ascending(r.nodes) && |r.nodes| > 1 && r.nodes[0].child == Some(1)
      && Read(r.nodes, r.nodes[0].child) == t
      && SameItems(Release(r.nodes, 1), Ids(1, |r.nodes| - 1))
  {
    hide *;
    PrintIsClean(schema, t);
    CodeExactly(lines, Print(t));
    CodeLinesReadBack(schema, t, lines);
  }

  lemma {:induction false} DressesItself(code: seq<string>)
    ensures Dresses(code, code)
  {
    hide IsDressed;
    if code != [] {
      Undressed(code[0]);
      DressesItself(code[1..]);
    }
  }

  /** In particular the printed text itself. */
  lemma PrintParsesBack(schema: Schema, t: Tree)
    requires ValidTree(schema, t) && t.Node?
    ensures var r := Parse(schema, Print(t));
      r.ret == Ok && Ascending(r.nodes) && |r.nodes| > 1 && Read(r.nodes, Some(1)) == t
  {
    hide *;
    DressesItself(Print(t));
    RoundTrip(schema, t, Print(t));
  }

  /** The first code line opens a block that exists. */
  predicate OpensBlock(schema: Schema, code: seq<string>) {
    code != [] && Classify(code[0]).OpenLine? && Classify(code[0]).name != ""
    && Classify(code[0]).name in schema.blocks
  }

  lemma BuildsBlockExactly(schema: Schema, code: seq<string>)
    ensures var t := Build(schema, code, None, "", Error);
      && t.settings == [] && (t.tree.Node? <==> OpensBlock(schema, code))
      && (t.tree.Nil? ==> (t.ret == Ok <==> code != [] && Classify(code[0]).CloseLine?))
  {
    hide Classify;
  }

  /** A text makes a block exactly if its first code line opens one. A text that makes none is accepted exactly if its
      first code line is a closing brace; then closing the configuration follows the null pointer of the root. */
  lemma NoBlockExactly(schema: Schema, lines: seq<string>)
    ensures var r, code := Parse(schema, lines), Code(lines);
      && (r.nodes[0].child == None <==> !OpensBlock(schema, code))
      && (r.nodes[0].child == None && r.ret == Ok <==> code != [] && Classify(code[0]).CloseLine?)
  {
    hide Build, Frame, Grow, Layout, Code, Classify;
    FrameBuildsTheTree(schema, lines, [ROOT], 0, true, None, "", Error);
    BuildsBlockExactly(schema, Code(lines));
    RootCarries(Build(schema, Code(lines), None, "", Error).tree);
  }

  lemma LoneBraceIsAccepted(schema: Schema, more: seq<string>)
    ensures var r := Parse(schema, ["}"] + more); r.ret == Ok && r.nodes[0].child == None
  {
    hide Clean, Classify, Frame;
    var lines := ["}"] + more;
    BraceIsClean();
    BraceCloses();
    CodeStep(lines);
    NoBlockExactly(schema, lines);
  }

  /** For every text that makes a block, even if it is refused half way: closing the configuration deletes each block
      created exactly once. */
  lemma EveryBlockIsReleasedOnce(schema: Schema, lines: seq<string>)
    requires OpensBlock(schema, Code(lines))
    ensures var r := Parse(schema, lines);
      && Ascending(r.nodes) && |r.nodes| > 1 && r.nodes[0].child == Some(1)
      && SameItems(Release(r.nodes, 1), Ids(1, |r.nodes| - 1))
  {
    hide Build, Frame, Grow, Release, SameItems, Layout, Ascending, Ids, OpensBlock, Code;
    FrameBuildsTheTree(schema, lines, [ROOT], 0, true, None, "", Error);
    BuildsBlockExactly(schema, Code(lines));
    var t := Build(schema, Code(lines), None, "", Error).tree;
    RootCarries(t);
    ReleasesEachOnce(Parse(schema, lines).nodes, t, 1);
  }

  /** The next configuration is parsed while the root still points to the first block of the last one, which has been
      deleted. */
  function Reparse(schema: Schema, before: seq<Block>, lines: seq<string>): Result
    requires before != []
  {
    Frame(schema, lines, before, 0, true, None, "", Error)
  }

  /** Whatever was loaded before: if the new text makes a block, closing deletes exactly the new blocks, each once; if
      it makes none, closing starts again at the block that was deleted. */
  lemma SecondCloseExactly(schema: Schema, before: seq<Block>, lines: seq<string>)
    requires before != [] && Ascending(before)
    ensures var r := Reparse(schema, before, lines);
      && Ascending(r.nodes) && |r.nodes| >= |before| && r.ret == Parse(schema, lines).ret
      && (OpensBlock(schema, Code(lines)) ==>
            && |r.nodes| > |before| && r.nodes[0].child == Some(|before|)
            && SameItems(Release(r.nodes, |before|), Ids(|before|, |r.nodes| - |before|)))
      && (!OpensBlock(schema, Code(lines)) ==> r.nodes[0].child == before[0].child)
  {
    hide Build, Frame, Grow, Release, SameItems, Layout, Ascending, Ids, OpensBlock, Code;
    FrameBuildsTheTree(schema, lines, [ROOT], 0, true, None, "", Error);
    FrameBuildsTheTree(schema, lines, before, 0, true, None, "", Error);
    BuildsBlockExactly(schema, Code(lines));
    var t := Build(schema, Code(lines), None, "", Error).tree;
    GrownCarries(before, t);
    ReleasesEachOnce(Reparse(schema, before, lines).nodes, t, |before|);
  }

  function LastBlock(t: Tree): (last: Tree)
    requires t.Node?
    ensures last.Node?
  {
    if t.sibling.Nil? then t else LastBlock(t.sibling)
  }

  function Unclosed(t: Tree): seq<string>
    requires t.Node?
  {
    Print(t)[..|Print(t)| - 1]
  }

  lemma WithoutLast(a: seq<string>, b: seq<string>, c: seq<string>)
    requires c != []
    ensures (a + (b + c))[..|a + (b + c)| - 1] == a + (b + c[..|c| - 1])
  {
  }

  lemma UnclosedShape(t: Tree)
    requires t.Node?
    ensures t.sibling.Nil? ==> Unclosed(t) == [OpenText(t.name)] + (Texts(t.settings) + Print(t.child) + [])
    ensures t.sibling.Node? ==>
      Unclosed(t) == [OpenText(t.name)] + (Texts(t.settings) + Print(t.child) + (["}"] + Unclosed(t.sibling)))
  {
    hide OpenText, Texts;
    var open, body, rest := [OpenText(t.name)], Texts(t.settings) + Print(t.child), Print(t.sibling);
    PrintedShape(t, []);
    assert rest + [] == rest && Print(t) + [] == Print(t);
    WithoutLast(open, body, ["}"] + rest);
    if t.sibling.Node? {
      WithoutLast([], ["}"], rest);
      assert [] + (["}"] + rest) == ["}"] + rest && [] + (["}"] + rest[..|rest| - 1]) == ["}"] + rest[..|rest| - 1];
    } else {
      assert (["}"] + rest)[..0] == [];
    }
  }

  lemma {:induction false} UnclosedBuilds(schema: Schema, t: Tree, kind: Option<string>, last: string, ret: Ret)
    requires ValidTree(schema, t) && t.Node?
    ensures var r := Build(schema, Unclosed(t), kind, last, ret);
      && r.tree == t && r.settings == []
      && (r.ret == Ok <==> LastBlock(t).child.Node?)
  {
    hide Build, OpenText, Texts, IsTidy, Print, Unclosed;
    UnclosedShape(t);
    if t.sibling.Nil? {
      BuildOpen(schema, t.name, Texts(t.settings) + Print(t.child) + [], kind, last, ret);
      BlockBodyBuilds(schema, t.settings, t.child, [], t.name, "", Error);
      BuildEnd(schema, [], Some(t.name), t.name, Ok);
      assert t.settings + [] == t.settings;
    } else {
      var tail := Unclosed(t.sibling);
      BuildOpen(schema, t.name, Texts(t.settings) + Print(t.child) + (["}"] + tail), kind, last, ret);
      BlockBodyBuilds(schema, t.settings, t.child, ["}"] + tail, t.name, "", Error);
      assert Beyond(["}"] + tail) == tail;
      UnclosedBuilds(schema, t.sibling, Some(t.name), t.name, Ok);
      assert t.settings + [] == t.settings;
    }
  }

  /** A file whose last closing brace is missing gives the same tree. It is refused exactly if the last block has no
      nested block. */
  lemma MissingBraceExactly(schema: Schema, t: Tree, lines: seq<string>)
    requires ValidTree(schema, t) && t.Node? && Dresses(lines, Unclosed(t))
    ensures var r := Parse(schema, lines);
      && Ascending(r.nodes) && |r.nodes| > 1 && r.nodes[0].child == Some(1) && Read(r.nodes, Some(1)) == t
      && (r.ret == Ok <==> LastBlock(t).child.Node?)
  {
    hide Build, Frame, Grow, Read, Print, ValidTree, Layout, Ascending, IsClean;
    PrintIsClean(schema, t);
    CodeExactly(lines, Unclosed(t));
    FrameBuildsTheTree(schema, lines, [ROOT], 0, true, None, "", Error);
    UnclosedBuilds(schema, t, None, "", Error);
    RootCarries(t);
    ReadsBack(Parse(schema, lines).nodes, t, 1);
  }

  /** Both happen: a block alone is refused, a block in a block is accepted, each with its last brace missing. */
  lemma MissingBraceHappens(schema: Schema, outer: string, inner: string)
    requires IsTidy(outer) && IsTidy(inner) && outer in schema.blocks && inner in schema.blocks
    ensures Parse(schema, [OpenText(outer)]).ret != Ok
    ensures Parse(schema, [OpenText(outer), OpenText(inner), "}"]).ret == Ok
  {
    hide Frame, IsTidy, Dresses, OpenText;
    var alone := Node(outer, [], Nil, Nil);
    var nested := Node(outer, [], Node(inner, [], Nil, Nil), Nil);
    var short, long := [OpenText(outer)], [OpenText(outer), OpenText(inner), "}"];
    assert Print(alone) == short + ["}"] && Unclosed(alone) == short;
    assert Print(nested.child) == [OpenText(inner), "}"];
    assert Print(nested) == long + ["}"] && Unclosed(nested) == long;
    DressesItself(short);
    DressesItself(long);
    MissingBraceExactly(schema, alone, short);
    MissingBraceExactly(schema, nested, long);
  }

  // ----- a setting before the first block

  /** Only a frame without a runtime can meet a setting it has no command table for, and only on its first code line:
      after any block the frame has one. */
  lemma {:induction false} RuntimeStays(schema: Schema, code: seq<string>, kind: Option<string>, last: string, ret: Ret)
    requires kind.Some? && ret != NoRuntime
    ensures Build(schema, code, kind, last, ret).ret != NoRuntime
    decreases |code|
  {
    hide Classify, Accepted;
    if code != [] {
      match Classify(code[0])
      case BadLine =>
      case CloseLine =>
      case SettingLine(s, text) => RuntimeStays(schema, code[1..], kind, text, ret);
      case OpenLine(text) =>
        var name := if text == "" then last else text;
        if name != "" && name in schema.blocks {
          RuntimeStays(schema, code[1..], Some(name), "", Error);
          var inner := Build(schema, code[1..], Some(name), "", Error);
          RuntimeStays(schema, inner.code, Some(name), text, Ok);
        }
    }
  }

  /** The null pointer is followed exactly when the first code line of the file is a setting. */
  lemma NullRuntimeExactly(schema: Schema, lines: seq<string>)
    ensures Parse(schema, lines).ret == NoRuntime <==>
      Code(lines) != [] && Classify(Code(lines)[0]).SettingLine?
  {
    hide Classify, Accepted, Code, Frame, Grow;
    FrameBuildsTheTree(schema, lines, [ROOT], 0, true, None, "", Error);
    var code := Code(lines);
    if code != [] && Classify(code[0]).OpenLine? {
      var text := Classify(code[0]).name;
      if text != "" && text in schema.blocks {
        RuntimeStays(schema, code[1..], Some(text), "", Error);
        RuntimeStays(schema, Build(schema, code[1..], Some(text), "", Error).code, Some(text), text, Ok);
      }
    }
  }

  /** Any printed setting at the top of a file does it. */
  lemma LeadingSettingCrashes(schema: Schema, s: Setting, more: seq<string>)
    requires IsPrintable(s)
    ensures Parse(schema, [SettingText(s)] + more).ret == NoRuntime
  {
    hide Classify, Clean, Frame, Build;
    var lines := [SettingText(s)] + more;
    SettingTextReads(s);
    CodeStep(lines);
    NullRuntimeExactly(schema, lines);
  }
}
