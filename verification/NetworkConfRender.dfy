/**
 * Rendering a configuration as network.conf text, with any key order, spacing, blank lines and
 * comments, and the proof that the linter reads it back.
 */
module NetworkConfRender {
  import opened Bytes
  import opened Decimal
  import opened Text
  import opened NetworkConf

  // ----- Documents ------------------------------------------------------------------

  datatype Line =
    | Filler(ws: string, comment: Option<string>)
    | Entry(key: string, value: string, pre: string, beforeEq: string, afterEq: string, post: string,
            comment: Option<string>)

  /** A blank line before the magic; a comment there must be indented. */
  datatype Lead = Lead(ws: string, comment: Option<string>)

  datatype Doc = Doc(lead: seq<Lead>, magicPost: string, magicComment: Option<string>, body: seq<Line>)

  predicate Padding(s: string) {
    Blank(s) && '\n' !in s
  }

  predicate CommentText(c: Option<string>) {
    c.Some? ==> '\n' !in c.value
  }

  function Hash(c: Option<string>): string {
    if c.Some? then "#" + c.value else ""
  }

  /** A MAC of hex digits only; the other values as the linter validates them. */
  predicate CanonicalValue(key: string, value: string) {
    && ValidValue(key, value)
    && (key == "mac" ==> forall p :: p in Split(value, ':') ==> IsHexDigit(p[0]) && IsHexDigit(p[1]))
  }

  predicate ValidLine(l: Line) {
    match l
    case Filler(ws, c) => Padding(ws) && CommentText(c)
    case Entry(k, v, pre, b, a, post, c) =>
      && KnownKey(k) && CanonicalValue(k, v)
      && Padding(pre) && Padding(b) && Padding(a) && Padding(post) && CommentText(c)
      && (c.Some? ==> post != "")
  }

  function Assignment(key: string, beforeEq: string, afterEq: string, value: string): string {
    key + beforeEq + "=" + afterEq + value
  }

  function RenderLine(l: Line): string {
    match l
    case Filler(ws, c) => ws + Hash(c)
    case Entry(k, v, pre, b, a, post, c) => pre + Assignment(k, b, a, v) + post + Hash(c)
  }

  predicate ValidLead(l: Lead) {
    Padding(l.ws) && CommentText(l.comment) && (l.comment.Some? ==> l.ws != "")
  }

  function RenderLead(l: Lead): string {
    l.ws + Hash(l.comment)
  }

  function Settings(body: seq<Line>): Config {
    if body == [] then map[]
    else
      var init, last := Settings(body[..|body| - 1]), body[|body| - 1];
      if last.Entry? then init[last.key := last.value] else init
  }

  predicate DistinctKeys(body: seq<Line>) {
    forall i, j :: 0 <= i < j < |body| && body[i].Entry? && body[j].Entry? ==> body[i].key != body[j].key
  }

  predicate ValidDoc(d: Doc) {
    && (forall l :: l in d.lead ==> ValidLead(l))
    && Padding(d.magicPost) && CommentText(d.magicComment) && (d.magicComment.Some? ==> d.magicPost != "")
    && (forall l :: l in d.body ==> ValidLine(l))
    && DistinctKeys(d.body) && RequiredCollected(Settings(d.body))
  }

  function MagicLine(d: Doc): string {
    MAGIC + d.magicPost + Hash(d.magicComment)
  }

  function Lines(d: Doc): seq<string> {
    seq(|d.lead|, i requires 0 <= i < |d.lead| => RenderLead(d.lead[i]))
    + [MagicLine(d)]
    + seq(|d.body|, i requires 0 <= i < |d.body| => RenderLine(d.body[i]))
  }

  function Render(d: Doc): string {
    Join(Lines(d), '\n')
  }

  // ----- Stripping --------------------------------------------------------------------

  lemma {:induction false} LStripPadded(ws: string, s: string)
    requires Blank(ws) && (s == "" || !IsSpace(s[0]))
    ensures LStrip(ws + s) == s
  {
    if ws == "" {
      assert ws + s == s;
    } else {
      assert (ws + s)[0] == ws[0] && (ws + s)[1..] == ws[1..] + s;
      LStripPadded(ws[1..], s);
    }
  }

  lemma {:induction false} RStripPadded(s: string, ws: string)
    requires Blank(ws) && (s == "" || !IsSpace(s[|s| - 1]))
    ensures RStrip(s + ws) == s
  {
    if ws == "" {
      assert s + ws == s;
    } else {
      var n := |ws| - 1;
      assert (s + ws)[|s + ws| - 1] == ws[n] && (s + ws)[..|s + ws| - 1] == s + ws[..n];
      RStripPadded(s, ws[..n]);
    }
  }

  predicate Trimmed(s: string) {
    s != "" && !IsSpace(s[0]) && !IsSpace(s[|s| - 1])
  }

  lemma StripPadded(pre: string, s: string, post: string)
    requires Blank(pre) && Blank(post) && Trimmed(s)
    ensures Strip(pre + s + post) == s
  {
    assert pre + s + post == pre + (s + post);
    LStripPadded(pre, s + post);
    RStripPadded(s, post);
  }

  lemma StripBlank(ws: string)
    requires Blank(ws)
    ensures Strip(ws) == ""
  {
    LStripPadded(ws, "");
    assert ws + "" == ws;
  }

  // ----- Comments ---------------------------------------------------------------------

  /** A '#' after some padding, with no '#' in between, is where the comment starts. */
  lemma {:induction false} CommentStarts(s: string, i: nat, k: nat)
    requires i <= k < |s| && CommentAt(s, k) && forall j :: i <= j < k ==> s[j] != '#'
    ensures CommentFrom(s, i) == k
    decreases k - i
  {
    if i < k {
      CommentStarts(s, i + 1, k);
    }
  }

  lemma {:induction false} NoComment(s: string, i: nat)
    requires i <= |s| && forall j :: i <= j < |s| ==> s[j] != '#'
    ensures CommentFrom(s, i) == |s|
    decreases |s| - i
  {
    if i < |s| {
      NoComment(s, i + 1);
    }
  }

  /** The text before an optional comment, scanning from i. */
  lemma CommentCut(front: string, c: Option<string>, i: nat)
    requires i <= |front| && (forall j :: i <= j < |front| ==> front[j] != '#')
    requires c.Some? ==> |front| == 0 || IsSpace(front[|front| - 1])
    ensures var s := front + Hash(c);
            CommentFrom(s, i) == |front| && s[..CommentFrom(s, i)] == front
  {
    var s := front + Hash(c);
    if c.Some? {
      assert s[|front|] == '#';
      CommentStarts(s, i, |front|);
    } else {
      assert s == front;
      NoComment(s, i);
    }
  }

  // ----- Valid values have plain characters --------------------------------------------

  /** Letters, digits and the punctuation of keys and values. */
  predicate Plain(c: char) {
    Ldh(c) || c == '.' || c == ':' || c == '_'
  }

  predicate AllPlain(s: string) {
    forall c :: c in s ==> Plain(c)
  }

  lemma PlainIsSafe(c: char)
    requires Plain(c)
    ensures !IsSpace(c) && c != '#' && c != '=' && c != '\n'
  {
  }

  lemma {:induction false} SplitChars(s: string, sep: char, c: char)
    requires c in s && c != sep
    ensures exists p :: p in Split(s, sep) && c in p
  {
    var rest, parts := Split(s[1..], sep), Split(s, sep);
    if c in s[1..] {
      SplitChars(s[1..], sep, c);
      var p :| p in rest && c in p;
      if s[0] != sep && p == rest[0] {
        assert parts[0] == [s[0]] + p && parts[0] in parts;
      } else if s[0] == sep {
        assert p in parts;
      } else {
        var i :| 1 <= i < |rest| && rest[i] == p;
        assert parts[i] == p;
      }
    } else {
      assert s[0] == c;
      assert parts[0] in parts && c in parts[0];
    }
  }

  lemma ValueIsPlain(key: string, value: string)
    requires CanonicalValue(key, value)
    ensures value != "" && AllPlain(value)
  {
    forall c | c in value ensures Plain(c) {
      if key == "mac" {
        if c != ':' {
          SplitChars(value, ':', c);
        }
      } else if key != "hostname" && key != "dhcp" {
        if c != '.' {
          SplitChars(value, '.', c);
          var p :| p in Split(value, '.') && c in p;
          assert ValidOctet(p);
        }
      }
    }
    assert Split("", '.') == [""] && Split("", ':') == [""];
  }

  lemma PlainTrimmed(s: string)
    requires s != "" && AllPlain(s)
    ensures Trimmed(s)
  {
    PlainIsSafe(s[0]);
    PlainIsSafe(s[|s| - 1]);
  }

  lemma KeyIsPlain(key: string)
    requires KnownKey(key)
    ensures key != "" && AllPlain(key)
  {
  }

  // ----- Reading one line back -----------------------------------------------------------

  /** Padding and plain text hold no hash. */
  lemma NoHash(s: string)
    requires forall c :: c in s ==> IsSpace(c) || Plain(c) || c == '='
    ensures '#' !in s
  {
    assert !IsSpace('#') && !Plain('#');
  }

  lemma {:induction false} FirstEquals(a: string, b: string)
    requires '=' !in a
    ensures EqualsAt(a + "=" + b) == |a|
  {
    var s := a + "=" + b;
    if a == "" {
      assert s[0] == '=';
    } else {
      assert s[0] == a[0] && a[0] in a && s[1..] == a[1..] + "=" + b;
      FirstEquals(a[1..], b);
    }
  }

  /** The characters of an entry before its comment. */
  lemma EntryFront(l: Line)
    requires l.Entry? && ValidLine(l)
    ensures var core := Assignment(l.key, l.beforeEq, l.afterEq, l.value);
            && Trimmed(core) && '#' !in l.pre + core + l.post
            && AllPlain(l.key) && Trimmed(l.key) && Trimmed(l.value)
  {
    KeyIsPlain(l.key);
    ValueIsPlain(l.key, l.value);
    PlainTrimmed(l.key);
    PlainTrimmed(l.value);
    hide Assignment, IsSpace, Plain;
    AssignmentEnds(l.key, l.beforeEq, l.afterEq, l.value);
    NoHash(l.pre + Assignment(l.key, l.beforeEq, l.afterEq, l.value) + l.post);
  }

  lemma AssignmentEnds(key: string, beforeEq: string, afterEq: string, value: string)
    requires key != "" && value != ""
    ensures var core := Assignment(key, beforeEq, afterEq, value);
            && core != "" && core[0] == key[0] && core[|core| - 1] == value[|value| - 1]
            && forall c :: c in core ==> c in key || c in beforeEq || c == '=' || c in afterEq || c in value
  {
  }

  lemma EntryShape(l: Line)
    requires l.Entry? && ValidLine(l)
    ensures Shape(RenderLine(l)) == KeyValue(l.key, l.value)
  {
    hide Assignment;
    EntryFront(l);
    NoEquals(l);
    var core := Assignment(l.key, l.beforeEq, l.afterEq, l.value);
    assert RenderLine(l) == l.pre + core + l.post + Hash(l.comment);
    hide Strip, RenderLine, EqualsAt, AllPlain, Trimmed, IsSpace, StripInlineComment, Hash, Shape;
    CoreIsLeft(l.pre, core, l.post, l.comment);
    KeyEqualsValue(l.key, l.beforeEq, l.afterEq, l.value);
    hide ValidLine;
    ShapeOfCore(RenderLine(l), core);
  }

  lemma ShapeOfCore(raw: string, core: string)
    requires Strip(StripInlineComment(raw)) == core && core != "" && '=' in core
    ensures Shape(raw) == KeyValue(Strip(core[..EqualsAt(core)]), Strip(core[EqualsAt(core) + 1..]))
  {
    hide Strip, StripInlineComment, EqualsAt;
  }

  /** Padding and a set-off comment are stripped from around a line. */
  lemma CoreIsLeft(pre: string, core: string, post: string, c: Option<string>)
    requires Blank(pre) && Blank(post) && Trimmed(core) && '#' !in pre + core + post && (c.Some? ==> post != "")
    ensures Strip(StripInlineComment(pre + core + post + Hash(c))) == core
  {
    hide Strip, CommentFrom;
    CommentCut(pre + core + post, c, 0);
    StripPadded(pre, core, post);
  }

  /** A trimmed key and value with padding about the '=' are cut apart there. */
  lemma KeyEqualsValue(key: string, beforeEq: string, afterEq: string, value: string)
    requires Trimmed(key) && Trimmed(value) && Blank(beforeEq) && Blank(afterEq) && '=' !in key + beforeEq
    ensures var core := Assignment(key, beforeEq, afterEq, value);
            && core != "" && '=' in core
            && Strip(core[..EqualsAt(core)]) == key && Strip(core[EqualsAt(core) + 1..]) == value
  {
    hide Strip, EqualsAt;
    var left, right := key + beforeEq, afterEq + value;
    var core := Assignment(key, beforeEq, afterEq, value);
    assert core == left + "=" + right;
    FirstEquals(left, right);
    assert core[..|left|] == left && core[|left| + 1..] == right;
    StripPadded("", key, beforeEq);
    StripPadded(afterEq, value, "");
    assert "" + key + beforeEq == left && afterEq + value + "" == right;
  }

  lemma NoEquals(l: Line)
    requires l.Entry? && ValidLine(l)
    ensures '=' !in l.key + l.beforeEq
  {
    KeyIsPlain(l.key);
    assert !IsSpace('=') && !Plain('=');
  }

  lemma FillerShape(l: Line)
    requires l.Filler? && ValidLine(l)
    ensures Shape(RenderLine(l)) == Nothing
  {
    NoHash(l.ws);
    CommentCut(l.ws, l.comment, 0);
    StripBlank(l.ws);
  }

  // ----- The magic -------------------------------------------------------------------------

  lemma LeadIsBlank(l: Lead)
    requires ValidLead(l)
    ensures Strip(StripMagicComment(RenderLead(l))) == ""
  {
    NoHash(l.ws);
    if l.ws != "" {
      CommentCut(l.ws, l.comment, 1);
    }
    StripBlank(l.ws);
  }

  lemma MagicIsRead(d: Doc)
    requires ValidDoc(d)
    ensures Strip(StripMagicComment(MagicLine(d))) == MAGIC
  {
    var front := MAGIC + d.magicPost;
    NoHash(d.magicPost);
    forall j | 1 <= j < |front| ensures front[j] != '#' {
      if j >= |MAGIC| {
        assert front[j] == d.magicPost[j - |MAGIC|];
      }
    }
    CommentCut(front, d.magicComment, 1);
    StripPadded("", MAGIC, d.magicPost);
    assert "" + MAGIC + d.magicPost == front;
  }

  lemma {:induction false} MagicFound(lead: seq<Lead>, lines: seq<string>, lineno: nat)
    requires forall l :: l in lead ==> ValidLead(l)
    requires |lines| > |lead| && Strip(StripMagicComment(lines[|lead|])) == MAGIC
    requires forall i :: 0 <= i < |lead| ==> lines[i] == RenderLead(lead[i])
    ensures CheckMagic(lines, lineno) == Ok(lineno + |lead|)
  {
    hide Strip, StripMagicComment, ValidLead, RenderLead;
    if lead != [] {
      assert lead[0] in lead;
      LeadIsBlank(lead[0]);
      assert Strip(StripMagicComment(lines[0])) == "";
      MagicFound(lead[1..], lines[1..], lineno + 1);
    }
  }

  // ----- The round trip -----------------------------------------------------------------------

  lemma {:induction false} SettingsFromEntries(body: seq<Line>, k: string)
    requires k in Settings(body)
    ensures exists i :: 0 <= i < |body| && body[i].Entry? && body[i].key == k
  {
    var n := |body| - 1;
    if !(body[n].Entry? && body[n].key == k) {
      SettingsFromEntries(body[..n], k);
      var i :| 0 <= i < n && body[..n][i].Entry? && body[..n][i].key == k;
      assert body[i] == body[..n][i];
    }
  }

  lemma LastKeyIsNew(body: seq<Line>)
    requires body != [] && DistinctKeys(body) && body[|body| - 1].Entry?
    ensures body[|body| - 1].key !in Settings(body[..|body| - 1])
  {
    var n := |body| - 1;
    if body[n].key in Settings(body[..n]) {
      SettingsFromEntries(body[..n], body[n].key);
    }
  }

  lemma {:induction false} BodyIsRead(body: seq<Line>, lines: seq<string>, lineno: nat)
    requires (forall l :: l in body ==> ValidLine(l)) && DistinctKeys(body)
    requires |lines| == |body| && forall i :: 0 <= i < |body| ==> lines[i] == RenderLine(body[i])
    ensures RunLines(START, lines, lineno) == LintState(Settings(body), [], false)
  {
    hide ValidLine, RenderLine, StepLine;
    if body != [] {
      var n := |body| - 1;
      assert body[n] in body;
      BodyIsRead(body[..n], lines[..n], lineno);
      RunLast(START, lines, lineno);
      if body[n].Entry? {
        LastKeyIsNew(body);
      }
      LineIsRead(Settings(body[..n]), body[n], lineno + n);
    }
  }

  lemma RunLast(st: LintState, lines: seq<string>, lineno: nat)
    requires lines != []
    ensures var n := |lines| - 1;
            RunLines(st, lines, lineno) == StepLine(RunLines(st, lines[..n], lineno), lineno + n, lines[n])
  {
    hide StepLine;
    var n := |lines| - 1;
    assert lines == lines[..n] + [lines[n]];
    RunConcat(st, lines[..n], [lines[n]], lineno);
    var mid := RunLines(st, lines[..n], lineno);
    assert [lines[n]][1..] == [];
    assert RunLines(mid, [lines[n]], lineno + n) == RunLines(StepLine(mid, lineno + n, lines[n]), [], lineno + n + 1);
  }

  lemma LineIsRead(config: Config, l: Line, lineno: nat)
    requires ValidLine(l) && (l.Entry? ==> l.key !in config)
    ensures StepLine(LintState(config, [], false), lineno, RenderLine(l))
         == LintState(if l.Entry? then config[l.key := l.value] else config, [], false)
  {
    hide Shape, RenderLine;
    if l.Entry? {
      EntryShape(l);
    } else {
      FillerShape(l);
    }
  }

  lemma LinesAreClean(d: Doc)
    requires ValidDoc(d)
    ensures forall line :: line in Lines(d) ==> '\n' !in line
  {
    MagicIsClean(d);
    hide ValidLine, RenderLine, ValidLead, RenderLead, MagicLine, Settings, RequiredCollected, DistinctKeys;
    forall i | 0 <= i < |d.body| ensures '\n' !in RenderLine(d.body[i]) {
      LineIsClean(d.body[i]);
    }
    forall i | 0 <= i < |d.lead| ensures '\n' !in RenderLead(d.lead[i]) {
      LeadIsClean(d.lead[i]);
    }
  }

  lemma MagicIsClean(d: Doc)
    requires Padding(d.magicPost) && CommentText(d.magicComment)
    ensures '\n' !in MagicLine(d)
  {
  }

  lemma LeadIsClean(l: Lead)
    requires ValidLead(l)
    ensures '\n' !in RenderLead(l)
  {
  }

  lemma LineIsClean(l: Line)
    requires ValidLine(l)
    ensures '\n' !in RenderLine(l)
  {
    if l.Entry? {
      KeyIsPlain(l.key);
      ValueIsPlain(l.key, l.value);
      assert !Plain('\n');
    }
  }

  /**
   * Any rendering of a valid configuration, in any key order, with any padding, blank lines and
   * comments set off by white space, lints ok and gives back exactly that configuration.
   */
  lemma RenderedDocLints(d: Doc)
    requires ValidDoc(d)
    ensures Linted(Render(d)) == LintResult(true, Settings(d.body), [])
  {
    hide RenderLine, RenderLead, MagicLine, Settings, RequiredCollected, RunLines, CheckMagic, ValidLine, ValidLead,
         Join, Split, Lines, Missing, Required;
    var lines := Lines(d);
    LinesAreClean(d);
    HeadIsRead(d);
    SplitJoin(lines, '\n');
    TailIsRead(d);
    CollectedMissesNothing(Settings(d.body));
  }

  lemma HeadIsRead(d: Doc)
    requires ValidDoc(d)
    ensures |Lines(d)| == |d.lead| + 1 + |d.body| && CheckMagic(Lines(d), 1) == Ok(1 + |d.lead|)
  {
    hide RenderLine, RenderLead, MagicLine, CheckMagic, ValidLine, ValidLead;
    MagicIsRead(d);
    MagicFound(d.lead, Lines(d), 1);
  }

  lemma TailIsRead(d: Doc)
    requires ValidDoc(d)
    ensures |Lines(d)| == |d.lead| + 1 + |d.body|
    ensures FinalState(Lines(d), 1 + |d.lead|) == LintState(Settings(d.body), [], false)
  {
    hide RenderLine, RenderLead, MagicLine, RunLines, ValidLine, ValidLead;
    var rest := Lines(d)[|d.lead| + 1..];
    assert |rest| == |d.body| && forall i :: 0 <= i < |d.body| ==> rest[i] == RenderLine(d.body[i]);
    BodyIsRead(d.body, rest, |d.lead| + 2);
  }

  lemma CollectedMissesNothing(config: Config)
    requires RequiredCollected(config)
    ensures Missing(Required(config), config) == []
  {
  }

  // ----- Comments before the magic --------------------------------------------------------

  lemma {:induction false} RStripKeepsHead(s: string)
    requires s != "" && !IsSpace(s[0])
    ensures RStrip(s) != "" && RStrip(s)[0] == s[0]
  {
    if IsSpace(s[|s| - 1]) {
      assert |s| > 1 && s[..|s| - 1][0] == s[0];
      RStripKeepsHead(s[..|s| - 1]);
    }
  }

  /** A comment line before the magic counts as blank exactly when it is indented. */
  lemma CommentLineBlankIff(ws: string, c: string)
    requires Blank(ws)
    ensures Strip(StripMagicComment(ws + "#" + c)) == "" <==> ws != ""
  {
    var s := ws + "#" + c;
    if ws != "" {
      NoHash(ws);
      assert s == ws + Hash(Some(c));
      CommentCut(ws, Some(c), 1);
      StripBlank(ws);
    } else {
      assert s[0] == '#' && StripMagicComment(s)[0] == '#';
      RStripKeepsHead(StripMagicComment(s));
    }
  }

  /** Whether a line that begins with '#' is the magic line. */
  predicate IsMagic(line: string) {
    Strip(StripMagicComment(line)) == MAGIC
  }

  /** After any blank lines, an unindented comment that is not the magic is refused, on its own line. */
  lemma {:induction false} UnindentedCommentRefused(lead: seq<string>, c: string, rest: seq<string>, lineno: nat)
    requires (forall i :: 0 <= i < |lead| ==> Strip(StripMagicComment(lead[i])) == "") && !IsMagic("#" + c)
    ensures CheckMagic(lead + ["#" + c] + rest, lineno).Err?
    ensures MagicErrorLine(lead + ["#" + c] + rest, lineno) == lineno + |lead|
  {
    var lines := lead + ["#" + c] + rest;
    hide Strip, StripMagicComment;
    if lead == [] {
      CommentLineBlankIff("", c);
      assert "" + "#" + c == "#" + c && lines[0] == "#" + c;
    } else {
      assert lines[0] == lead[0] && lines[1..] == lead[1..] + ["#" + c] + rest;
      UnindentedCommentRefused(lead[1..], c, rest, lineno + 1);
    }
  }

  /** A text that begins with an unindented comment is refused for it, whatever follows. */
  lemma CommentFirstRefused(c: string, text: string)
    requires '\n' !in c && !IsMagic("#" + c)
    ensures Linted("#" + c + "\n" + text) == LintResult(false, map[], [LintError(1, E_MAGIC)])
  {
    hide CheckMagic, MagicErrorLine, Split, IsMagic, FinalState, Verdict;
    var line := "#" + c;
    assert line + ['\n'] + text == "#" + c + "\n" + text;
    SplitConcat(line, text, '\n');
    SplitNone(line, '\n');
    assert [] + [line] + Split(text, '\n') == [line] + Split(text, '\n');
    UnindentedCommentRefused([], c, Split(text, '\n'), 1);
  }

  /** Before a configuration that lints ok, a comment line leaves it so when indented, and is an E_MAGIC when not. */
  lemma IndentationDecides(d: Doc, c: string)
    requires ValidDoc(d) && '\n' !in c && !IsMagic("#" + c)
    ensures Linted(" #" + c + "\n" + Render(d)) == LintResult(true, Settings(d.body), [])
    ensures Linted("#" + c + "\n" + Render(d)) == LintResult(false, map[], [LintError(1, E_MAGIC)])
  {
    IndentedRenders(d, c);
    hide ValidDoc, Settings, Render, Linted, IsMagic;
    RenderedDocLints(d.(lead := [Lead(" ", Some(c))] + d.lead));
    CommentFirstRefused(c, Render(d));
  }

  lemma IndentedRenders(d: Doc, c: string)
    requires ValidDoc(d) && '\n' !in c
    ensures ValidDoc(d.(lead := [Lead(" ", Some(c))] + d.lead))
    ensures Render(d.(lead := [Lead(" ", Some(c))] + d.lead)) == " #" + c + "\n" + Render(d)
  {
    hide ValidLine, Settings, RequiredCollected, DistinctKeys, Lines, Join;
    var first := Lead(" ", Some(c));
    assert ValidLead(first) && RenderLead(first) == " " + ("#" + c) == " #" + c;
    LeadFirst(d, first);
    hide ValidLead;
  }

  lemma LeadFirst(d: Doc, first: Lead)
    ensures Render(d.(lead := [first] + d.lead)) == RenderLead(first) + ['\n'] + Render(d)
  {
    hide RenderLead, RenderLine;
    var d' := d.(lead := [first] + d.lead);
    var lines := [RenderLead(first)] + Lines(d);
    forall k | 0 <= k < |lines| ensures Lines(d')[k] == lines[k] {
      if 0 < k <= |d.lead| {
        assert d'.lead[k] == d.lead[k - 1];
      }
    }
    assert Lines(d') == lines;
    hide Lines, MagicLine;
    assert lines[1..] == Lines(d) && |Lines(d')| > 1;
  }

  const NOTED := MAGIC + "\n" + ("hostname" + "=" + "pi") + "\n" + ("dhcp" + "=" + "yes")

  /** For instance, a note above the magic line: refused, and read as intended one space further in. */
  lemma NoteAboveMagic()
    ensures Linted("#" + " note" + "\n" + NOTED) == LintResult(false, map[], [LintError(1, E_MAGIC)])
    ensures Linted(" #" + " note" + "\n" + NOTED) ==
            LintResult(true, map["hostname" := "pi", "dhcp" := "yes"], [])
  {
    var host := Entry("hostname", "pi", "", "", "", "", None);
    var dhcp := Entry("dhcp", "yes", "", "", "", "", None);
    var d := Doc([], "", None, [host, dhcp]);
    NoteDocIsValid(host, dhcp);
    NoteDocRenders(host, dhcp);
    NoteIsNotMagic();
    hide ValidDoc, Settings, Render, Linted, IsMagic;
    IndentationDecides(d, " note");
  }

  lemma NoteIsNotMagic()
    ensures !IsMagic("#" + " note")
  {
    var s := "#" + " note";
    assert s == "# note";
    NoComment(s, 1);
    assert s[..6] == s;
    assert Trimmed(s) && LStrip(s) == s && RStrip(s) == s;
  }

  lemma NoteDocIsValid(host: Line, dhcp: Line)
    requires host == Entry("hostname", "pi", "", "", "", "", None) && dhcp == Entry("dhcp", "yes", "", "", "", "", None)
    ensures var d := Doc([], "", None, [host, dhcp]);
            ValidDoc(d) && Settings(d.body) == map["hostname" := "pi", "dhcp" := "yes"]
  {
    var d := Doc([], "", None, [host, dhcp]);
    assert d.body[..1] == [host] && d.body[..1][..0] == [];
    assert Settings([host]) == map["hostname" := "pi"];
  }

  lemma NoteDocRenders(host: Line, dhcp: Line)
    requires host == Entry("hostname", "pi", "", "", "", "", None) && dhcp == Entry("dhcp", "yes", "", "", "", "", None)
    ensures Render(Doc([], "", None, [host, dhcp])) == NOTED
  {
    var d := Doc([], "", None, [host, dhcp]);
    BareEntry("hostname", "pi");
    BareEntry("dhcp", "yes");
    var a, b, c := MagicLine(d), RenderLine(host), RenderLine(dhcp);
    assert a == MAGIC;
    assert Lines(d) == [a, b, c];
    hide RenderLine, MagicLine, Lines;
    assert [a, b, c][1..] == [b, c] && [b, c][1..] == [c];
    assert Join([b, c], '\n') == b + ['\n'] + c;
    assert Join([a, b, c], '\n') == a + ['\n'] + Join([b, c], '\n');
  }

  lemma BareEntry(k: string, v: string)
    ensures RenderLine(Entry(k, v, "", "", "", "", None)) == k + "=" + v
  {
  }
}
