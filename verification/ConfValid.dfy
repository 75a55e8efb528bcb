/** What every text that the parser of slscore/conf.cpp reads, good or bad, makes: a tree that could have been printed,
    with the settings and blocks of the lines it accepts, though not always where they were meant. */
module ConfValid {
  import opened Common
  import opened ConfLines
  import opened ConfParser
  import opened ConfTree

  // ----- what a cleaned line can say

  lemma {:induction false} NoTabsHasNone(s: string)
    ensures '\t' !in NoTabs(s) && forall c :: c in NoTabs(s) ==> c in s
  {
    if s != "" {
      NoTabsHasNone(s[1..]);
    }
  }

  lemma {:induction false} TrimLeftKeeps(s: string)
    ensures forall c :: c in TrimLeft(s) ==> c in s
    ensures s != "" && s[|s| - 1] != ' ' ==> TrimLeft(s) != "" && TrimLeft(s)[|TrimLeft(s)| - 1] == s[|s| - 1]
  {
    if s != "" && s[0] == ' ' {
      TrimLeftKeeps(s[1..]);
    }
  }

  lemma {:induction false} TrimRightKeeps(s: string)
    ensures forall c :: c in TrimRight(s) ==> c in s
    ensures TrimRight(s) != "" ==> TrimRight(s)[0] == s[0]
  {
    if s != "" && s[|s| - 1] == ' ' {
      TrimRightKeeps(s[..|s| - 1]);
    }
  }

  /** Text without tabs and comments is tidy once trimmed, unless nothing is left. */
  lemma TrimIsTidy(s: string)
    requires '\t' !in s && '#' !in s
    ensures Trim(s) == "" || IsTidy(Trim(s))
    ensures s != "" && s[|s| - 1] != ' ' ==> IsTidy(Trim(s))
  {
    TrimLeftKeeps(s);
    TrimRightKeeps(TrimLeft(s));
  }

  lemma CleanIsTidy(line: string)
    ensures Clean(line) == "" || IsTidy(Clean(line))
  {
    hide Trim;
    var code := Uncommented(line);
    NoTabsHasNone(code);
    assert '#' !in code;
    TrimIsTidy(NoTabs(code));
  }

  lemma {:induction false} CodeIsTidy(lines: seq<string>)
    ensures forall c :: c in Code(lines) ==> IsTidy(c)
  {
    hide Clean, IsTidy;
    if lines != [] {
      CodeIsTidy(lines[1..]);
      CleanIsTidy(lines[0]);
    }
  }

  /** Whatever a tidy line says could have been printed. */
  lemma SaysPrintable(s: string)
    requires IsTidy(s)
    ensures match Classify(s)
      case SettingLine(setting, text) => IsPrintable(setting) && IsTidy(text)
      case OpenLine(name) => name == "" || IsTidy(name)
      case _ => true
  {
    hide Trim, NoTabs, Index;
    var front := s[..|s| - 1];
    NoTabsHasNone(front);
    assert forall c :: c in front ==> c in s;
    TrimIsTidy(NoTabs(front));
    var body := Trim(NoTabs(front));
    if s[|s| - 1] == ';' && body != "" {
      var i := Index(body, ' ');
      if i < |body| {
        SplitIsPrintable(body, i);
      }
    }
  }

  lemma SplitIsPrintable(body: string, i: nat)
    requires IsTidy(body) && i < |body| && body[i] == ' ' && ' ' !in body[..i]
    ensures IsPrintable(Setting(body[..i], Trim(body[i + 1..])))
  {
    hide Trim;
    assert i > 0 && i < |body| - 1;
    var name, value := body[..i], body[i + 1..];
    assert forall c :: c in name ==> c in body;
    assert forall c :: c in value ==> c in body;
    assert name[0] == body[0] && name[|name| - 1] in name;
    assert value[|value| - 1] == body[|body| - 1];
    TrimIsTidy(value);
  }

  // ----- the tree of any code lines

  predicate AllTidy(code: seq<string>) {
    forall c :: c in code ==> IsTidy(c)
  }

  /** Tidy settings that a block of this kind takes. */
  predicate Takes(schema: Schema, kind: Option<string>, settings: seq<Setting>) {
    forall s :: s in settings ==> IsPrintable(s) && Accepted(schema, kind, s)
  }

  predicate IsTail(tail: seq<string>, code: seq<string>) {
    |tail| <= |code| && tail == code[|code| - |tail|..]
  }

  lemma TailOfTail(a: seq<string>, b: seq<string>, c: seq<string>)
    requires IsTail(a, b) && IsTail(b, c)
    ensures IsTail(a, c)
  {
  }

  lemma AllTidyTail(tail: seq<string>, code: seq<string>)
    requires IsTail(tail, code) && AllTidy(code)
    ensures AllTidy(tail)
  {
    assert forall c :: c in tail ==> c in code;
  }

  /** The code lines are read from the front. */
  lemma {:induction false} BuildReadsOn(schema: Schema, code: seq<string>, kind: Option<string>, last: string, ret: Ret)
    ensures IsTail(Build(schema, code, kind, last, ret).code, code)
    decreases |code|, 0
  {
    hide Classify, Accepted, IsTail;
    TailItself(code);
    if code != [] {
      TailOne(code);
      match Classify(code[0])
      case BadLine =>
      case CloseLine =>
      case SettingLine(s, text) =>
        BuildReadsOn(schema, code[1..], kind, text, ret);
        TailOfTail(Build(schema, code[1..], kind, text, ret).code, code[1..], code);
      case OpenLine(text) =>
        var name := if text == "" then last else text;
        if name != "" && name in schema.blocks {
          OpenReadsOn(schema, code[1..], name, text);
          TailOfTail(Build(schema, code[1..], Some(name), "", Error).code, code[1..], code);
          TailOfTail(Build(schema, Build(schema, code[1..], Some(name), "", Error).code, Some(name), text, Ok).code,
                     code[1..], code);
        }
    }
  }

  lemma OpenReadsOn(schema: Schema, code: seq<string>, name: string, text: string)
    ensures
      var inner := Build(schema, code, Some(name), "", Error);
      IsTail(inner.code, code) && IsTail(Build(schema, inner.code, Some(name), text, Ok).code, code)
    decreases |code|, 1
  {
    hide Build, IsTail;
    var inner := Build(schema, code, Some(name), "", Error);
    BuildReadsOn(schema, code, Some(name), "", Error);
    BuildReadsOn(schema, inner.code, Some(name), text, Ok);
    TailOfTail(Build(schema, inner.code, Some(name), text, Ok).code, inner.code, code);
  }

  lemma TailItself(code: seq<string>)
    ensures IsTail(code, code)
  {
  }

  lemma TailOne(code: seq<string>)
    requires code != []
    ensures IsTail(code[1..], code)
  {
  }

  lemma NodeIsValid(schema: Schema, name: string, a: seq<Setting>, b: seq<Setting>, child: Tree, sibling: Tree)
    requires IsTidy(name) && name in schema.blocks && Takes(schema, Some(name), a) && Takes(schema, Some(name), b)
    requires ValidTree(schema, child) && ValidTree(schema, sibling)
    ensures ValidTree(schema, Node(name, a + b, child, sibling))
  {
  }

  /** What the parser makes of any code lines is a tree that could have been printed. */
  lemma {:induction false} BuildIsValid(schema: Schema, code: seq<string>, kind: Option<string>, last: string, ret: Ret)
    requires AllTidy(code) && (last == "" || IsTidy(last))
    ensures
      var r := Build(schema, code, kind, last, ret);
      ValidTree(schema, r.tree) && Takes(schema, kind, r.settings)
    decreases |code|, 0
  {
    hide IsTidy, IsPrintable, Classify, Accepted, ValidTree, AllTidy;
    NilIsValid(schema);
    if code != [] {
      assert IsTidy(code[0]) && AllTidy(code[1..]) by { FirstIsTidy(code); }
      SaysPrintable(code[0]);
      match Classify(code[0])
      case BadLine =>
      case CloseLine =>
      case SettingLine(s, text) =>
        BuildIsValid(schema, code[1..], kind, text, ret);
      case OpenLine(text) =>
        var name := if text == "" then last else text;
        if name != "" && name in schema.blocks {
          OpenIsValid(schema, code[1..], name, text);
        }
    }
  }

  lemma NilIsValid(schema: Schema)
    ensures ValidTree(schema, Nil)
  {
  }

  lemma FirstIsTidy(code: seq<string>)
    requires code != [] && AllTidy(code)
    ensures IsTidy(code[0]) && AllTidy(code[1..])
  {
  }

  lemma OpenIsValid(schema: Schema, code: seq<string>, name: string, text: string)
    requires AllTidy(code) && IsTidy(name) && name in schema.blocks && (text == "" || IsTidy(text))
    ensures
      var inner := Build(schema, code, Some(name), "", Error);
      var after := Build(schema, inner.code, Some(name), text, Ok);
      && ValidTree(schema, Node(name, inner.settings, inner.tree, Nil))
      && ValidTree(schema, Node(name, inner.settings + after.settings, inner.tree, after.tree))
    decreases |code|, 1
  {
    hide IsTidy, IsPrintable, Accepted, ValidTree, Build, AllTidy;
    var inner := Build(schema, code, Some(name), "", Error);
    BuildIsValid(schema, code, Some(name), "", Error);
    BuildReadsOn(schema, code, Some(name), "", Error);
    AllTidyTail(inner.code, code);
    BuildIsValid(schema, inner.code, Some(name), text, Ok);
    var after := Build(schema, inner.code, Some(name), text, Ok);
    NilIsValid(schema);
    NodeIsValid(schema, name, inner.settings, [], inner.tree, Nil);
    assert inner.settings + [] == inner.settings;
    NodeIsValid(schema, name, inner.settings, after.settings, inner.tree, after.tree);
  }

  /** Every text that makes a block, even one that is refused half way, makes a tree that could have been printed. */
  lemma EveryTreeIsValid(schema: Schema, lines: seq<string>)
    requires OpensBlock(schema, Code(lines))
    ensures var r := Parse(schema, lines);
      && Ascending(r.nodes) && |r.nodes| > 1 && Read(r.nodes, Some(1)).Node?
      && ValidTree(schema, Read(r.nodes, Some(1)))
  {
    hide Build, Frame, Grow, Layout, Ascending, OpensBlock, Code, ValidTree, Read;
    FrameBuildsTheTree(schema, lines, [ROOT], 0, true, None, "", Error);
    BuildsBlockExactly(schema, Code(lines));
    CodeIsTidy(lines);
    BuildIsValid(schema, Code(lines), None, "", Error);
    var t := Build(schema, Code(lines), None, "", Error).tree;
    RootCarries(t);
    ReadsBack(Parse(schema, lines).nodes, t, 1);
  }

  /** Parsing undoes printing for every tree that parsing can make: printed and parsed again, whatever a text has made
      comes back, and is accepted. */
  lemma ParsePrintParse(schema: Schema, lines: seq<string>)
    requires OpensBlock(schema, Code(lines))
    ensures
      var r := Parse(schema, lines);
      Ascending(r.nodes) && |r.nodes| > 1 &&
      var t := Read(r.nodes, Some(1));
      var again := Parse(schema, Print(t));
      again.ret == Ok && Ascending(again.nodes) && |again.nodes| > 1 && Read(again.nodes, Some(1)) == t
  {
    hide Build, Parse, Ascending, OpensBlock, Code, ValidTree, Read, Print;
    EveryTreeIsValid(schema, lines);
    PrintParsesBack(schema, Read(Parse(schema, lines).nodes, Some(1)));
  }

  // ----- what an accepted text has said

  /** The line opens a block that exists (its name may be on the line before), closes one, or is a setting that some
      block takes. */
  ghost predicate IsGood(schema: Schema, line: string) {
    match Classify(line)
    case BadLine => false
    case CloseLine => true
    case OpenLine(name) => name == "" || name in schema.blocks
    case SettingLine(s, text) => exists kind :: kind in schema.blocks && schema.accepts(kind, s.name, s.value)
  }

  /** The settings of a tree. */
  function SettingsOf(t: Tree): multiset<Setting> {
    match t
    case Nil => multiset{}
    case Node(name, settings, child, sibling) => multiset(settings) + SettingsOf(child) + SettingsOf(sibling)
  }

  function BlocksOf(t: Tree): nat {
    match t
    case Nil => 0
    case Node(name, settings, child, sibling) => 1 + BlocksOf(child) + BlocksOf(sibling)
  }

  /** The settings among the first `n` code lines. */
  function SettingsIn(code: seq<string>, n: nat): multiset<Setting>
    requires n <= |code|
  {
    if n == 0 then multiset{}
    else
      (if Classify(code[0]).SettingLine? then multiset{Classify(code[0]).setting} else multiset{})
      + SettingsIn(code[1..], n - 1)
  }

  function OpeningsIn(code: seq<string>, n: nat): nat
    requires n <= |code|
  {
    if n == 0 then 0 else (if Classify(code[0]).OpenLine? then 1 else 0) + OpeningsIn(code[1..], n - 1)
  }

  ghost predicate AllGood(schema: Schema, code: seq<string>, n: nat)
    requires n <= |code|
  {
    forall i :: 0 <= i < n ==> IsGood(schema, code[i])
  }

  /** The first `n` code lines are good and have these settings and so many openings. */
  ghost predicate Accounts(schema: Schema, code: seq<string>, n: nat, settings: multiset<Setting>, openings: nat) {
    n <= |code| && AllGood(schema, code, n) && SettingsIn(code, n) == settings && OpeningsIn(code, n) == openings
  }

  lemma {:induction false} AccountsJoin(schema: Schema, code: seq<string>, m: nat, n: nat, a: multiset<Setting>, j: nat,
                                        b: multiset<Setting>, k: nat)
    requires Accounts(schema, code, m, a, j) && Accounts(schema, code[m..], n, b, k)
    ensures Accounts(schema, code, m + n, a + b, j + k)
    decreases m
  {
    hide IsGood, Classify;
    if m == 0 {
      assert code[0..] == code;
    } else {
      var rest := code[1..];
      assert rest[m - 1..] == code[m..];
      assert AllGood(schema, rest, m - 1) by {
        assert forall i :: 0 <= i < m - 1 ==> rest[i] == code[i + 1];
      }
      AccountsJoin(schema, rest, m - 1, n, SettingsIn(rest, m - 1), OpeningsIn(rest, m - 1), b, k);
      assert forall i :: 0 < i < m + n ==> code[i] == rest[i - 1];
      assert AllGood(schema, code, m + n) by {
        assert IsGood(schema, code[0]);
      }
    }
  }

  lemma AccountsNone(schema: Schema, code: seq<string>)
    ensures Accounts(schema, code, 0, multiset{}, 0)
  {
  }

  lemma AccountsOne(schema: Schema, code: seq<string>)
    requires code != [] && IsGood(schema, code[0])
    ensures
      var l := Classify(code[0]);
      Accounts(schema, code, 1, if l.SettingLine? then multiset{l.setting} else multiset{},
               if l.OpenLine? then 1 else 0)
  {
    hide IsGood, Classify;
    assert SettingsIn(code[1..], 0) == multiset{} && OpeningsIn(code[1..], 0) == 0;
  }

  /** What a frame leaves unread is a tail of the code; it has read good lines only, and each setting and each opening
      among them is in what it has made, once. */
  ghost predicate Conserves(schema: Schema, code: seq<string>, r: Built) {
    IsTail(r.code, code)
    && Accounts(schema, code, |code| - |r.code|, multiset(r.settings) + SettingsOf(r.tree), BlocksOf(r.tree))
  }

  lemma NothingConserves(schema: Schema, code: seq<string>, ret: Ret)
    ensures Conserves(schema, code, Built(ret, code, [], Nil))
  {
  }

  lemma CloseConserves(schema: Schema, code: seq<string>, ret: Ret)
    requires code != [] && Classify(code[0]).CloseLine?
    ensures Conserves(schema, code, Built(ret, code[1..], [], Nil))
  {
    hide Classify;
    AccountsOne(schema, code);
  }

  lemma SettingConserves(schema: Schema, code: seq<string>, after: Built)
    requires code != [] && Classify(code[0]).SettingLine? && IsGood(schema, code[0])
    requires Conserves(schema, code[1..], after)
    ensures Conserves(schema, code, after.(settings := [Classify(code[0]).setting] + after.settings))
  {
    hide Classify, Accounts, IsGood, SettingsOf, BlocksOf;
    var s := Classify(code[0]).setting;
    AccountsOne(schema, code);
    AccountsJoin(schema, code, 1, |code| - 1 - |after.code|, multiset{s}, 0,
                 multiset(after.settings) + SettingsOf(after.tree), BlocksOf(after.tree));
    var all := after.(settings := [s] + after.settings);
    assert multiset(all.settings) + SettingsOf(all.tree)
        == multiset{s} + (multiset(after.settings) + SettingsOf(after.tree));
    TailOne(code);
    TailOfTail(after.code, code[1..], code);
  }

  lemma NodeCounts(name: string, a: seq<Setting>, b: seq<Setting>, child: Tree, sibling: Tree)
    ensures SettingsOf(Node(name, a + b, child, sibling))
         == multiset(a) + SettingsOf(child) + (multiset(b) + SettingsOf(sibling))
    ensures BlocksOf(Node(name, a + b, child, sibling)) == 1 + (BlocksOf(child) + BlocksOf(sibling))
  {
  }

  lemma OpeningConserves(schema: Schema, code: seq<string>, name: string, inner: Built, after: Built)
    requires code != [] && Classify(code[0]).OpenLine? && IsGood(schema, code[0])
    requires Conserves(schema, code[1..], inner) && Conserves(schema, inner.code, after)
    ensures
      Conserves(schema, code,
                Built(after.ret, after.code, [], Node(name, inner.settings + after.settings, inner.tree, after.tree)))
  {
    hide Classify, Accounts, IsGood, SettingsOf, BlocksOf;
    var a := multiset(inner.settings) + SettingsOf(inner.tree);
    var b := multiset(after.settings) + SettingsOf(after.tree);
    var m, n := |code| - 1 - |inner.code|, |inner.code| - |after.code|;
    AccountsOne(schema, code);
    AccountsJoin(schema, code[1..], m, n, a, BlocksOf(inner.tree), b, BlocksOf(after.tree));
    AccountsJoin(schema, code, 1, m + n, multiset{}, 1, a + b, BlocksOf(inner.tree) + BlocksOf(after.tree));
    NodeCounts(name, inner.settings, after.settings, inner.tree, after.tree);
    TailOne(code);
    TailOfTail(after.code, inner.code, code[1..]);
    TailOfTail(after.code, code[1..], code);
  }

  lemma {:induction false} BuildAccounts(schema: Schema, code: seq<string>, kind: Option<string>, last: string,
                                         ret: Ret)
    requires kind.Some? ==> kind.value in schema.blocks
    ensures
      var r := Build(schema, code, kind, last, ret);
      r.ret == Ok ==> Conserves(schema, code, r)
    decreases |code|, 1
  {
    hide Classify, Conserves;
    NothingConserves(schema, code, ret);
    if code != [] {
      match Classify(code[0])
      case BadLine =>
      case CloseLine => CloseConserves(schema, code, Ok);
      case SettingLine(s, text) =>
        if Accepted(schema, kind, s) {
          var after := Build(schema, code[1..], kind, text, ret);
          BuildAccounts(schema, code[1..], kind, text, ret);
          if after.ret == Ok {
            SettingConserves(schema, code, after);
          }
        }
      case OpenLine(text) => OpenAccounts(schema, code, kind, last, ret, text);
    }
  }

  lemma OpenAccounts(schema: Schema, code: seq<string>, kind: Option<string>, last: string, ret: Ret, text: string)
    requires code != [] && Classify(code[0]) == OpenLine(text)
    ensures
      var r := Build(schema, code, kind, last, ret);
      r.ret == Ok ==> Conserves(schema, code, r)
    decreases |code|, 0
  {
    hide Classify, Conserves;
    var name := if text == "" then last else text;
    if name != "" && name in schema.blocks {
      var inner := Build(schema, code[1..], Some(name), "", Error);
      BuildAccounts(schema, code[1..], Some(name), "", Error);
      if inner.ret == Ok {
        var after := Build(schema, inner.code, Some(name), text, Ok);
        BuildAccounts(schema, inner.code, Some(name), text, Ok);
        if after.ret == Ok {
          OpeningConserves(schema, code, name, inner, after);
        }
      }
    }
  }

  /** An accepted file: up to where it was read there is no bad line, no unknown block and no setting that no block
      takes, and the tree has exactly its settings and its blocks. */
  lemma AcceptedFileAccounts(schema: Schema, lines: seq<string>)
    requires Parse(schema, lines).ret == Ok && OpensBlock(schema, Code(lines))
    ensures
      var r, code := Parse(schema, lines), Code(lines);
      && Ascending(r.nodes) && |r.nodes| > 1 && |Code(r.lines)| <= |code|
      && var t := Read(r.nodes, Some(1));
         Accounts(schema, code, |code| - |Code(r.lines)|, SettingsOf(t), BlocksOf(t))
  {
    hide Build, Frame, Grow, Layout, Ascending, OpensBlock, Code, Read, Accounts;
    FrameBuildsTheTree(schema, lines, [ROOT], 0, true, None, "", Error);
    BuildsBlockExactly(schema, Code(lines));
    BuildAccounts(schema, Code(lines), None, "", Error);
    var t := Build(schema, Code(lines), None, "", Error).tree;
    RootCarries(t);
    ReadsBack(Parse(schema, lines).nodes, t, 1);
    assert multiset([]) + SettingsOf(t) == SettingsOf(t);
  }

  // ----- a setting behind a nested block

  /** The tree with more settings in its last block. */
  function WithMore(t: Tree, more: seq<Setting>): Tree
    requires t.Node?
  {
    if t.sibling.Nil? then t.(settings := t.settings + more) else t.(sibling := WithMore(t.sibling, more))
  }

  lemma LastBody(schema: Schema, name: string, more: seq<Setting>, rest: seq<string>)
    requires Ends(rest) && Takes(schema, Some(name), more)
    ensures Build(schema, Texts(more) + rest, Some(name), name, Ok) == Built(Ok, Beyond(rest), more, Nil)
  {
    hide Build, Texts, Accepted, IsPrintable;
    BlockBodyBuilds(schema, more, Nil, rest, name, name, Ok);
    assert Texts(more) + Print(Nil) + rest == Texts(more) + rest;
  }

  /** Blocks, and then settings that the last of them takes: it gets them. */
  lemma {:induction false} MoreSettingsBuild(schema: Schema, t: Tree, more: seq<Setting>, rest: seq<string>,
                                             kind: Option<string>, last: string, ret: Ret)
    requires ValidTree(schema, t) && t.Node? && Ends(rest) && Takes(schema, Some(LastBlock(t).name), more)
    ensures Build(schema, Print(t) + (Texts(more) + rest), kind, last, ret)
         == Built(Ok, Beyond(rest), [], WithMore(t, more))
    decreases t
  {
    hide Build, OpenText, Texts, IsTidy, Print, Takes;
    var tail := Print(t.sibling) + (Texts(more) + rest);
    PrintedShape(t, Texts(more) + rest);
    BuildOpen(schema, t.name, Texts(t.settings) + Print(t.child) + (["}"] + tail), kind, last, ret);
    BlockBodyBuilds(schema, t.settings, t.child, ["}"] + tail, t.name, "", Error);
    assert Beyond(["}"] + tail) == tail;
    if t.sibling.Nil? {
      assert tail == Texts(more) + rest by { NothingPrinted(); }
      LastBody(schema, t.name, more, rest);
    } else {
      MoreSettingsBuild(schema, t.sibling, more, rest, Some(t.name), t.name, Ok);
      assert t.settings + [] == t.settings;
    }
  }

  lemma NothingPrinted()
    ensures Print(Nil) == []
  {
  }

  lemma RefusedSetting(schema: Schema, s: Setting, code: seq<string>, name: string)
    requires IsPrintable(s) && !Accepted(schema, Some(name), s)
    ensures Build(schema, [SettingText(s)] + code, Some(name), name, Ok).ret == Error
  {
    hide Classify, IsPrintable;
    SettingTextReads(s);
  }

  /** A setting that the last block does not take is refused, whether or not the block around it would take it. */
  lemma {:induction false} ForeignSettingIsRefused(schema: Schema, t: Tree, s: Setting, rest: seq<string>,
                                                   kind: Option<string>, last: string, ret: Ret)
    requires ValidTree(schema, t) && t.Node? && IsPrintable(s) && !Accepted(schema, Some(LastBlock(t).name), s)
    ensures Build(schema, Print(t) + ([SettingText(s)] + rest), kind, last, ret).ret == Error
    decreases t
  {
    hide Build, OpenText, Texts, IsTidy, Print, Accepted, SettingText, IsPrintable;
    var more := [SettingText(s)] + rest;
    var tail := Print(t.sibling) + more;
    PrintedShape(t, more);
    BuildOpen(schema, t.name, Texts(t.settings) + Print(t.child) + (["}"] + tail), kind, last, ret);
    BlockBodyBuilds(schema, t.settings, t.child, ["}"] + tail, t.name, "", Error);
    assert Beyond(["}"] + tail) == tail;
    if t.sibling.Nil? {
      assert tail == more by { NothingPrinted(); }
      RefusedSetting(schema, s, rest, t.name);
    } else {
      ForeignSettingIsRefused(schema, t.sibling, s, rest, Some(t.name), t.name, Ok);
    }
  }

  /** A file with one block around others, and a setting behind those: the last of the inner blocks gets it if it takes
      it, and the file is refused if it does not; the block around them never gets it. */
  lemma TrailingSetting(schema: Schema, name: string, inner: Tree, s: Setting, lines: seq<string>)
    requires IsTidy(name) && name in schema.blocks && ValidTree(schema, inner) && inner.Node? && IsPrintable(s)
    requires Dresses(lines, [OpenText(name)] + (Print(inner) + ([SettingText(s)] + ["}"])))
    ensures
      var r := Parse(schema, lines);
      if Accepted(schema, Some(LastBlock(inner).name), s) then
        && r.ret == Ok && Ascending(r.nodes) && |r.nodes| > 1 && r.nodes[0].child == Some(1)
        && Read(r.nodes, Some(1)) == Node(name, [], WithMore(inner, [s]), Nil)
      else r.ret == Error
  {
    hide Build, Frame, Grow, Layout, Ascending, Read, Code, IsTidy, IsPrintable, Accepted, IsClean, WithMore, Dresses;
    hide SettingText, OpenText, ValidTree, Print;
    var body := Print(inner) + ([SettingText(s)] + ["}"]);
    TrailingIsClean(schema, name, inner, s);
    CodeExactly(lines, [OpenText(name)] + body);
    FrameBuildsTheTree(schema, lines, [ROOT], 0, true, None, "", Error);
    BuildOpen(schema, name, body, None, "", Error);
    if Accepted(schema, Some(LastBlock(inner).name), s) {
      OneText(s);
      assert Takes(schema, Some(LastBlock(inner).name), [s]);
      MoreSettingsBuild(schema, inner, [s], ["}"], Some(name), "", Error);
      assert Beyond(["}"]) == [];
      BuildEnd(schema, [], Some(name), name, Ok);
      var t := Node(name, [], WithMore(inner, [s]), Nil);
      var none: seq<Setting> := [];
      assert none + none == none;
      assert Build(schema, [OpenText(name)] + body, None, "", Error) == Built(Ok, [], [], t);
      RootCarries(t);
      ReadsBack(Parse(schema, lines).nodes, t, 1);
    } else {
      ForeignSettingIsRefused(schema, inner, s, ["}"], Some(name), "", Error);
    }
  }

  lemma OneText(s: Setting)
    ensures Texts([s]) == [SettingText(s)]
  {
    hide SettingText;
    var none: seq<Setting> := [];
    assert [s][1..] == none && Texts(none) == [];
  }

  lemma TrailingIsClean(schema: Schema, name: string, inner: Tree, s: Setting)
    requires IsTidy(name) && ValidTree(schema, inner) && IsPrintable(s)
    ensures forall c :: c in [OpenText(name)] + (Print(inner) + ([SettingText(s)] + ["}"])) ==> IsClean(c)
  {
    hide Print, OpenText, SettingText, Clean, IsTidy, IsPrintable, ValidTree;
    OpenTextReads(name);
    PrintIsClean(schema, inner);
    SettingTextReads(s);
    BraceIsClean();
  }
}
