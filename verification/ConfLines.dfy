/** Lines of a configuration file, as slscore/conf.cpp cleans and splits them. */
module ConfLines {
  datatype Setting = Setting(name: string, value: string)

  datatype Line =
    | SettingLine(setting: Setting, text: string)
    | OpenLine(name: string)
    | CloseLine
    | BadLine

  // ----- std::string helpers

  /** `find`: the first position of a character, or the length. */
  function Index(s: string, c: char): (i: nat)
    ensures i <= |s| && c !in s[..i] && (i < |s| ==> s[i] == c)
  {
    if s == "" || s[0] == c then 0 else Index(s[1..], c) + 1
  }

  /** `replace_all(s, "\t", "")`. */
  function NoTabs(s: string): string {
    if s == "" then "" else if s[0] == '\t' then NoTabs(s[1..]) else [s[0]] + NoTabs(s[1..])
  }

  function TrimLeft(s: string): (r: string)
    ensures r == "" || r[0] != ' '
    ensures s == "" || s[0] != ' ' ==> r == s
  {
    if s != "" && s[0] == ' ' then TrimLeft(s[1..]) else s
  }

  function TrimRight(s: string): (r: string)
    ensures r == "" || r[|r| - 1] != ' '
    ensures s == "" || s[|s| - 1] != ' ' ==> r == s
  {
    if s != "" && s[|s| - 1] == ' ' then TrimRight(s[..|s| - 1]) else s
  }

  function Trim(s: string): string {
    TrimRight(TrimLeft(s))
  }

  function Uncommented(s: string): (r: string)
    ensures '#' !in s ==> r == s
  {
    s[..Index(s, '#')]
  }

  /** A line without its comment, its tabs and its outer spaces. */
  function Clean(s: string): string {
    Trim(NoTabs(Uncommented(s)))
  }

  /** What a cleaned line says; its last character decides. */
  function Classify(s: string): Line {
    if s == "" then BadLine else
    var last, body := s[|s| - 1], Trim(NoTabs(s[..|s| - 1]));
    if last == ';' then
      var i := Index(body, ' ');
      if i == |body| then BadLine
      else SettingLine(Setting(body[..i], Trim(body[i + 1..])), body)
    else if last == '{' then OpenLine(body)
    else if last == '}' then (if |s| == 1 then CloseLine else BadLine)
    else BadLine
  }

  /** The lines that are neither blank nor comment, cleaned. */
  function Code(lines: seq<string>): seq<string> {
    if lines == [] then []
    else (if Clean(lines[0]) == "" then [] else [Clean(lines[0])]) + Code(lines[1..])
  }

  // ----- what the cleaning ignores

  lemma {:induction false} NoTabsConcat(a: string, b: string)
    ensures NoTabs(a + b) == NoTabs(a) + NoTabs(b)
  {
    if a == "" {
      assert a + b == b;
    } else {
      NoTabsConcat(a[1..], b);
      assert (a + b)[1..] == a[1..] + b;
      if a[0] != '\t' {
        assert [a[0]] + (NoTabs(a[1..]) + NoTabs(b)) == [a[0]] + NoTabs(a[1..]) + NoTabs(b);
      }
    }
  }

  lemma {:induction false} NoTabsIn(s: string)
    requires '\t' !in s
    ensures NoTabs(s) == s
  {
    if s != "" {
      NoTabsIn(s[1..]);
    }
  }

  lemma TabAlone()
    ensures NoTabs("\t") == "" && NoTabs(" ") == " " && Uncommented("\t") == "\t" && Uncommented(" ") == " "
  {
  }

  lemma {:induction false} IndexConcat(a: string, b: string, c: char)
    ensures Index(a + b, c) == if c in a then Index(a, c) else |a| + Index(b, c)
  {
    if a == "" {
      assert a + b == b;
    } else {
      assert (a + b)[1..] == a[1..] + b && a == [a[0]] + a[1..];
      IndexConcat(a[1..], b, c);
    }
  }

  lemma UncommentedConcat(a: string, b: string)
    ensures Uncommented(a + b) == if '#' in a then Uncommented(a) else a + Uncommented(b)
  {
    IndexConcat(a, b, '#');
    hide Index;
    var i := Index(b, '#');
    if '#' !in a {
      assert (a + b)[..|a| + i] == a + b[..i];
    }
  }

  /** Everything from the first `#` on is ignored. */
  lemma CommentsAreIgnored(s: string, comment: string)
    ensures Clean(s + "#" + comment) == Clean(s)
  {
    hide NoTabs, Trim;
    UncommentedConcat(s, "#" + comment);
    assert s + "#" + comment == s + ("#" + comment);
    assert Uncommented("#" + comment) == "";
  }

  /** A tab may stand anywhere, even inside a word. */
  lemma TabsAreIgnored(a: string, b: string)
    ensures Clean(a + "\t" + b) == Clean(a + b)
  {
    hide Trim, Uncommented, NoTabs;
    var rest := Uncommented(b);
    UncommentedConcat(a, "\t" + b);
    UncommentedConcat("\t", b);
    UncommentedConcat(a, b);
    assert a + "\t" + b == a + ("\t" + b);
    TabAlone();
    if '#' !in a {
      NoTabsConcat(a, "\t" + rest);
      NoTabsConcat("\t", rest);
      NoTabsConcat(a, rest);
      assert "" + NoTabs(rest) == NoTabs(rest);
    }
  }

  lemma TrimLeftSpace(s: string)
    ensures Trim(" " + s) == Trim(s)
  {
    assert (" " + s)[1..] == s;
  }

  lemma {:induction false} TrimRightSpace(s: string)
    ensures Trim(s + " ") == Trim(s)
  {
    if s == "" {
      assert s + " " == " ";
      assert TrimLeft(" ") == TrimLeft("");
    } else if s[0] == ' ' {
      TrimRightSpace(s[1..]);
      assert (s + " ")[1..] == s[1..] + " ";
    } else {
      assert (s + " ")[..|s|] == s;
    }
  }

  /** Spaces around a line do not matter. */
  lemma OuterSpacesAreIgnored(s: string)
    ensures Clean(" " + s) == Clean(s) && Clean(s + " ") == Clean(s)
  {
    hide Trim, Uncommented, NoTabs;
    TabAlone();
    var code := Uncommented(s);
    UncommentedConcat(" ", s);
    UncommentedConcat(s, " ");
    NoTabsConcat(" ", code);
    NoTabsConcat(s, " ");
    TrimLeftSpace(NoTabs(code));
    TrimRightSpace(NoTabs(s));
  }

  // ----- what a line may wear

  datatype Edit = Tab(at: nat) | SpaceBefore | SpaceAfter | Comment(text: string)

  /** One edit of a line that cleaning takes back: a tab anywhere, a space in front or behind, a comment. */
  function Edited(s: string, e: Edit): string {
    match e
    case Tab(at) => if at <= |s| then s[..at] + "\t" + s[at..] else s
    case SpaceBefore => " " + s
    case SpaceAfter => s + " "
    case Comment(text) => s + "#" + text
  }

  function Worn(s: string, edits: seq<Edit>): string {
    if edits == [] then s else Edited(Worn(s, edits[..|edits| - 1]), edits[|edits| - 1])
  }

  ghost predicate IsDressed(line: string, text: string) {
    exists edits :: Worn(text, edits) == line
  }

  /** The lines are those of `code`, each dressed, among any number of lines that are nothing but dress. */
  ghost predicate Dresses(lines: seq<string>, code: seq<string>)
    decreases |lines|
  {
    if lines == [] then code == []
    else
      || (IsDressed(lines[0], "") && Dresses(lines[1..], code))
      || (code != [] && IsDressed(lines[0], code[0]) && Dresses(lines[1..], code[1..]))
  }

  predicate IsClean(s: string) {
    s != "" && Clean(s) == s
  }

  lemma EditIsIgnored(s: string, e: Edit)
    ensures Clean(Edited(s, e)) == Clean(s)
  {
    hide Clean;
    match e
    case Tab(at) =>
      if at <= |s| {
        TabsAreIgnored(s[..at], s[at..]);
        assert s[..at] + s[at..] == s;
      }
    case SpaceBefore => OuterSpacesAreIgnored(s);
    case SpaceAfter => OuterSpacesAreIgnored(s);
    case Comment(text) => CommentsAreIgnored(s, text);
  }

  lemma {:induction false} EditsAreIgnored(s: string, edits: seq<Edit>)
    ensures Clean(Worn(s, edits)) == Clean(s)
  {
    hide Clean, Edited;
    if edits != [] {
      EditsAreIgnored(s, edits[..|edits| - 1]);
      EditIsIgnored(Worn(s, edits[..|edits| - 1]), edits[|edits| - 1]);
    }
  }

  lemma OneMoreEdit(line: string, text: string, e: Edit)
    requires IsDressed(line, text)
    ensures IsDressed(Edited(line, e), text)
  {
    hide Edited;
    var edits :| Worn(text, edits) == line;
    assert (edits + [e])[..|edits|] == edits;
    assert Worn(text, edits + [e]) == Edited(line, e);
  }

  lemma Undressed(text: string)
    ensures IsDressed(text, text)
  {
    assert Worn(text, []) == text;
  }

  lemma {:induction false} TrimmedLeft(s: string, text: string)
    requires IsDressed(TrimLeft(s), text)
    ensures IsDressed(s, text)
  {
    hide IsDressed;
    if s != "" && s[0] == ' ' {
      TrimmedLeft(s[1..], text);
      OneMoreEdit(s[1..], text, SpaceBefore);
      assert s == " " + s[1..];
    }
  }

  lemma {:induction false} TrimmedRight(s: string, text: string)
    requires IsDressed(TrimRight(s), text)
    ensures IsDressed(s, text)
  {
    hide IsDressed;
    if s != "" && s[|s| - 1] == ' ' {
      TrimmedRight(s[..|s| - 1], text);
      OneMoreEdit(s[..|s| - 1], text, SpaceAfter);
      assert s == s[..|s| - 1] + " ";
    }
  }

  lemma {:induction false} Untabbed(s: string, text: string)
    requires IsDressed(NoTabs(s), text)
    ensures IsDressed(s, text)
    decreases |s|
  {
    hide IsDressed;
    var i := Index(s, '\t');
    if i == |s| {
      assert s[..i] == s;
      NoTabsIn(s);
    } else {
      var a, b := s[..i], s[i + 1..];
      NoTabsConcat(a, "\t" + b);
      NoTabsConcat("\t", b);
      NoTabsConcat(a, b);
      TabAlone();
      assert s == a + ("\t" + b) && "" + NoTabs(b) == NoTabs(b);
      Untabbed(a + b, text);
      OneMoreEdit(a + b, text, Tab(i));
      assert Edited(a + b, Tab(i)) == s;
    }
  }

  lemma WithoutComment(s: string, text: string)
    requires IsDressed(Uncommented(s), text)
    ensures IsDressed(s, text)
  {
    hide IsDressed;
    var i := Index(s, '#');
    if i == |s| {
      assert s[..i] == s;
    } else {
      OneMoreEdit(s[..i], text, Comment(s[i + 1..]));
      assert s == s[..i] + "#" + s[i + 1..];
    }
  }

  /** Cleaning a line takes off exactly what a line may wear. */
  lemma CleanExactly(line: string, text: string)
    requires Clean(text) == text
    ensures Clean(line) == text <==> IsDressed(line, text)
  {
    hide Uncommented, NoTabs, TrimLeft, TrimRight;
    if Clean(line) == text {
      Undressed(text);
      var tabless := NoTabs(Uncommented(line));
      TrimmedRight(TrimLeft(tabless), text);
      TrimmedLeft(tabless, text);
      Untabbed(Uncommented(line), text);
      WithoutComment(line, text);
    }
    if IsDressed(line, text) {
      var edits :| Worn(text, edits) == line;
      EditsAreIgnored(text, edits);
    }
  }

  lemma CodeEnd()
    ensures Code([]) == []
  {
  }

  lemma CodeStep(lines: seq<string>)
    requires lines != []
    ensures var line, code := Clean(lines[0]), Code(lines);
      if line == "" then code == Code(lines[1..])
      else code != [] && code[0] == line && code[1..] == Code(lines[1..])
  {
  }

  /** The code lines of a text are `code` exactly if the text is `code` with tabs anywhere, spaces outside, comments
      behind, and blank or comment lines in between. */
  lemma {:induction false} CodeExactly(lines: seq<string>, code: seq<string>)
    requires forall c :: c in code ==> IsClean(c)
    ensures Code(lines) == code <==> Dresses(lines, code)
    decreases |lines|
  {
    hide Clean, IsDressed, Code;
    CodeEnd();
    if lines != [] {
      var line := lines[0];
      CodeStep(lines);
      BlankIsClean();
      CleanExactly(line, "");
      CodeExactly(lines[1..], code);
      if code != [] {
        assert IsClean(code[0]);
        CleanExactly(line, code[0]);
        CodeExactly(lines[1..], code[1..]);
        assert code == [code[0]] + code[1..];
      }
      if Clean(line) != "" {
        assert Code(lines) == [Clean(line)] + Code(lines[1..]);
      }
    }
  }

  lemma BlankIsClean()
    ensures Clean("") == ""
  {
  }

  // ----- printed lines

  /** Text that cleaning leaves alone. */
  predicate IsTidy(s: string) {
    s != "" && s[0] != ' ' && s[|s| - 1] != ' ' && '\t' !in s && '#' !in s
  }

  predicate IsPrintable(s: Setting) {
    IsTidy(s.name) && ' ' !in s.name && IsTidy(s.value)
  }

  function SettingText(s: Setting): string {
    s.name + " " + s.value + ";"
  }

  function OpenText(name: string): string {
    name + " {"
  }

  lemma TidyTrims(s: string)
    requires IsTidy(s)
    ensures Trim(NoTabs(s)) == s && Clean(s) == s
  {
    NoTabsIn(s);
  }

  lemma FirstSpace(name: string, value: string)
    requires ' ' !in name
    ensures Index(name + " " + value, ' ') == |name|
  {
    IndexConcat(name, " " + value, ' ');
    assert name + " " + value == name + (" " + value);
  }

  lemma SettingTextReads(s: Setting)
    requires IsPrintable(s)
    ensures Clean(SettingText(s)) == SettingText(s) != ""
    ensures Classify(SettingText(s)) == SettingLine(s, s.name + " " + s.value)
  {
    hide Trim, NoTabs, Index, Clean;
    var body, line := s.name + " " + s.value, SettingText(s);
    assert body[0] == line[0] == s.name[0] && body[|body| - 1] == s.value[|s.value| - 1];
    assert forall c :: c in body ==> c in s.name || c == ' ' || c in s.value;
    assert forall c :: c in line ==> c in body || c == ';';
    TidyTrims(body);
    TidyTrims(line);
    assert line[..|line| - 1] == body;
    FirstSpace(s.name, s.value);
    assert body[..|s.name|] == s.name && body[|s.name| + 1..] == s.value;
    TidyTrims(s.value);
    NoTabsIn(s.value);
  }

  lemma OpenTextReads(name: string)
    requires IsTidy(name)
    ensures Clean(OpenText(name)) == OpenText(name) != ""
    ensures Classify(OpenText(name)) == OpenLine(name)
  {
    hide Trim, NoTabs, Index, Clean;
    var line := OpenText(name);
    assert line[0] == name[0];
    TidyTrims(line);
    assert line[..|line| - 1] == name + " ";
    NoTabsIn(name + " ");
    NoTabsIn(name);
    TrimRightSpace(name);
    TidyTrims(name);
  }
}
