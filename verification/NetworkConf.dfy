/**
 * The network.conf linter: comment stripping, key = value lines collected into a configuration,
 * the mode-dependent required keys, and the soft end of file on trailing garbage.
 */
module NetworkConf {
  import opened Bytes
  import opened Decimal
  import opened Text

  const MAGIC := "# WSPI5CFG"
  const HOSTNAME_MAX_LEN := 63

  const REQUIRED_KEYS: seq<string> := ["ip", "netmask", "gateway", "hostname"]
  const DHCP_RELAXED_REQUIRED: seq<string> := ["hostname"]

  predicate KnownKey(k: string) {
    k == "ip" || k == "netmask" || k == "gateway" || k == "hostname"
    || k == "ntp_server" || k == "mac" || k == "dhcp"
  }

  datatype Code = E_MAGIC | E_LINE | E_KEY | E_DUP | E_REQ | E_IP | E_HOST | E_MAC

  datatype LintError = LintError(line: nat, code: Code)

  type Config = map<string, string>

  datatype LintResult = LintResult(ok: bool, config: Config, errors: seq<LintError>)

  // ----- Strings -----------------------------------------------------------------

  function LStrip(s: string): string {
    if s != "" && IsSpace(s[0]) then LStrip(s[1..]) else s
  }

  function RStrip(s: string): string {
    if s != "" && IsSpace(s[|s| - 1]) then RStrip(s[..|s| - 1]) else s
  }

  /** str.strip */
  function Strip(s: string): string {
    RStrip(LStrip(s))
  }

  // ----- Value validators ----------------------------------------------------------

  /** _is_valid_octet */
  predicate ValidOctet(p: string) {
    && p != "" && AllDigits(p)
    && !(|p| > 1 && p[0] == '0')
    && IntOf(p) <= 255
  }

  /** _validate_ip */
  predicate ValidIp(s: string) {
    var parts := Split(s, '.');
    |parts| == 4 && forall p :: p in parts ==> ValidOctet(p)
  }

  predicate ValidYesNo(s: string) {
    s == "yes" || s == "no"
  }

  predicate Ldh(c: char) {
    LdhFirst(c) || c == '-'
  }

  predicate LdhFirst(c: char) {
    'a' <= c <= 'z' || 'A' <= c <= 'Z' || '0' <= c <= '9'
  }

  /** _validate_hostname */
  predicate ValidHostname(s: string) {
    && 0 < |s| <= HOSTNAME_MAX_LEN
    && LdhFirst(s[0]) && LdhFirst(s[|s| - 1])
    && forall c :: c in s ==> Ldh(c)
  }

  /** Two characters that int(p, 16) accepts: two hex digits, or a sign or a space beside one. */
  predicate ValidMacByte(p: string) {
    && |p| == 2
    && ((IsHexDigit(p[1]) && (IsHexDigit(p[0]) || p[0] == '+' || p[0] == '-' || IsSpace(p[0])))
        || (IsHexDigit(p[0]) && IsSpace(p[1])))
  }

  predicate ValidMac(s: string) {
    var parts := Split(s, ':');
    |parts| == 6 && forall p :: p in parts ==> ValidMacByte(p)
  }

  /** The validator table: is the value valid for a known key, and what is it called when not. */
  predicate ValidValue(key: string, value: string) {
    if key == "hostname" then ValidHostname(value)
    else if key == "mac" then ValidMac(value)
    else if key == "dhcp" then ValidYesNo(value)
    else ValidIp(value)
  }

  function ValueCode(key: string): Code {
    if key == "hostname" then E_HOST else if key == "mac" then E_MAC else if key == "dhcp" then E_LINE else E_IP
  }

  /** a.b.c.d in canonical decimal */
  function Dotted(a: byte, b: byte, c: byte, d: byte): string {
    Join([Dec(a), Dec(b), Dec(c), Dec(d)], '.')
  }

  /** The accepted IPv4 values are exactly the canonical renderings of four bytes. */
  lemma Ipv4Exactly(s: string)
    ensures ValidIp(s) <==>
              exists a: byte, b: byte, c: byte, d: byte :: s == Dotted(a, b, c, d)
  {
    hide ValidIp, Dotted;
    if ValidIp(s) {
      IpParts(s);
    }
    if a: byte, b: byte, c: byte, d: byte :| s == Dotted(a, b, c, d) {
      BytesAreIp(a, b, c, d);
    }
  }

  lemma BytesAreIp(a: byte, b: byte, c: byte, d: byte)
    ensures ValidIp(Dotted(a, b, c, d))
  {
    hide Split, Join, Dec, ValidOctet;
    var p := [Dec(a), Dec(b), Dec(c), Dec(d)];
    OctetPrints(a);
    OctetPrints(b);
    OctetPrints(c);
    OctetPrints(d);
    forall q | q in p ensures '.' !in q && ValidOctet(q) {
      assert q == p[0] || q == p[1] || q == p[2] || q == p[3];
    }
    SplitJoin(p, '.');
  }

  lemma OctetPrints(n: byte)
    ensures ValidOctet(Dec(n)) && '.' !in Dec(n)
  {
    PrintThenRead(n);
  }

  lemma IpParts(s: string)
    requires ValidIp(s)
    ensures exists a: byte, b: byte, c: byte, d: byte :: s == Dotted(a, b, c, d)
  {
    hide Split, Join, Dec, IntOf;
    var p := Split(s, '.');
    JoinSplit(s, '.');
    forall i | 0 <= i < 4 ensures ValidOctet(p[i]) && Dec(IntOf(p[i])) == p[i] {
      assert p[i] in p;
      ReadThenPrint(p[i]);
    }
    var a: byte, b: byte, c: byte, d: byte := IntOf(p[0]), IntOf(p[1]), IntOf(p[2]), IntOf(p[3]);
    assert p == [Dec(a), Dec(b), Dec(c), Dec(d)];
    assert s == Dotted(a, b, c, d);
  }

  // ----- Lines ------------------------------------------------------------------------

  /** Does a comment start at i? */
  predicate CommentAt(s: string, i: int)
    requires 0 <= i < |s|
  {
    s[i] == '#' && (i == 0 || IsSpace(s[i - 1]))
  }

  /** The first comment start at or after i, or the end. */
  function CommentFrom(s: string, i: nat): (k: nat)
    requires i <= |s|
    ensures i <= k <= |s|
    decreases |s| - i
  {
    if i == |s| then i else if CommentAt(s, i) then i else CommentFrom(s, i + 1)
  }

  /** _strip_inline_comment */
  function StripInlineComment(s: string): string {
    s[..CommentFrom(s, 0)]
  }

  /** _strip_magic_trailing_comment: the magic's own '#' is not a comment. */
  function StripMagicComment(s: string): string {
    if s == "" then s else s[..CommentFrom(s, 1)]
  }

  /** _check_magic: the 1-based line of the sentinel. */
  function CheckMagic(lines: seq<string>, lineno: nat): (r: Result<nat>)
    ensures r.Ok? ==> lineno <= r.value < lineno + |lines|
  {
    if lines == [] then Err("empty file or no magic sentinel found")
    else
      var stripped := Strip(StripMagicComment(lines[0]));
      if stripped == "" then CheckMagic(lines[1..], lineno + 1)
      else if stripped == MAGIC then Ok(lineno)
      else Err("first non-empty line must be the magic")
  }

  /** The line the magic error is reported on: 0 when there is no non-empty line. */
  function MagicErrorLine(lines: seq<string>, lineno: nat): nat {
    if lines == [] then 0
    else if Strip(StripMagicComment(lines[0])) == "" then MagicErrorLine(lines[1..], lineno + 1)
    else lineno
  }

  /** _classify_kv with _validate_value */
  function Classify(key: string, value: string, config: Config): Option<Code> {
    if !KnownKey(key) then Some(E_KEY)
    else if key in config then Some(E_DUP)
    else if ValidValue(key, value) then None
    else Some(ValueCode(key))
  }

  function EqualsAt(s: string): (k: nat)
    requires '=' in s
    ensures k < |s| && s[k] == '=' && '=' !in s[..k]
  {
    if s[0] == '=' then 0 else 1 + EqualsAt(s[1..])
  }

  /** What a line says: nothing, something without '=', or a key and a value. */
  datatype LineShape = Nothing | NoEquals | KeyValue(key: string, value: string)

  function Shape(raw: string): LineShape {
    var line := Strip(StripInlineComment(raw));
    if line == "" then Nothing
    else if '=' !in line then NoEquals
    else KeyValue(Strip(line[..EqualsAt(line)]), Strip(line[EqualsAt(line) + 1..]))
  }

  /** _parse_line: the error, if any, and the configuration afterwards. */
  function ParseLine(raw: string, config: Config): (Option<Code>, Config) {
    match Shape(raw)
    case Nothing => (None, config)
    case NoEquals => (Some(E_LINE), config)
    case KeyValue(k, v) =>
      match Classify(k, v, config)
      case None => (None, config[k := v])
      case Some(e) => (Some(e), config)
  }

  /** The required keys in the current mode. */
  function Required(config: Config): seq<string> {
    if "dhcp" in config && config["dhcp"] == "yes" then DHCP_RELAXED_REQUIRED else REQUIRED_KEYS
  }

  /** _required_collected */
  predicate RequiredCollected(config: Config) {
    forall k :: k in Required(config) ==> k in config
  }

  /** _check_required */
  function Missing(required: seq<string>, config: Config): (e: seq<LintError>)
    ensures e == [] <==> forall k :: k in required ==> k in config
    ensures forall x :: x in e ==> x == LintError(0, E_REQ)
  {
    if required == [] then []
    else (if required[0] in config then [] else [LintError(0, E_REQ)]) + Missing(required[1..], config)
  }

  // ----- The lint run --------------------------------------------------------------------

  /** Configuration and errors so far, and whether the soft end of file was reached. */
  datatype LintState = LintState(config: Config, errors: seq<LintError>, stopped: bool)

  const START := LintState(map[], [], false)

  function StepLine(st: LintState, lineno: nat, raw: string): LintState {
    if st.stopped then st
    else
      var (err, config) := ParseLine(raw, st.config);
      match err
      case None => st.(config := config)
      case Some(code) =>
        if code == E_KEY && RequiredCollected(st.config) then st.(stopped := true)
        else st.(errors := st.errors + [LintError(lineno, code)])
  }

  function RunLines(st: LintState, lines: seq<string>, lineno: nat): LintState
    decreases |lines|
  {
    if lines == [] then st else RunLines(StepLine(st, lineno, lines[0]), lines[1..], lineno + 1)
  }

  /** The state after all lines behind the magic. */
  function FinalState(lines: seq<string>, magic: nat): LintState
    requires magic <= |lines|
  {
    RunLines(START, lines[magic..], magic + 1)
  }

  function Verdict(st: LintState): LintResult {
    var errors := st.errors + Missing(Required(st.config), st.config);
    LintResult(errors == [], st.config, errors)
  }

  /** lint, as a function of the text. */
  function Linted(text: string): LintResult {
    var lines := Split(text, '\n');
    match CheckMagic(lines, 1)
    case Err(_) => LintResult(false, map[], [LintError(MagicErrorLine(lines, 1), E_MAGIC)])
    case Ok(magic) => Verdict(FinalState(lines, magic))
  }

  method FindMagic(lines: seq<string>) returns (magic: Result<nat>, errorLine: nat)
    ensures magic == CheckMagic(lines, 1)
    ensures magic.Err? ==> errorLine == MagicErrorLine(lines, 1)
  {
    var i := 0;
    errorLine := 0;
    while i < |lines|
      invariant 0 <= i <= |lines|
      invariant CheckMagic(lines[i..], i + 1) == CheckMagic(lines, 1)
      invariant MagicErrorLine(lines[i..], i + 1) == MagicErrorLine(lines, 1)
    {
      var stripped := Strip(StripMagicComment(lines[i]));
      assert lines[i..][1..] == lines[i + 1..];
      if stripped != "" {
        if stripped == MAGIC {
          return Ok(i + 1), 0;
        }
        return Err("first non-empty line must be the magic"), i + 1;
      }
      i := i + 1;
    }
    return Err("empty file or no magic sentinel found"), 0;
  }

  method Lint(text: string) returns (r: LintResult)
    ensures r == Linted(text)
  {
    hide ParseLine, RequiredCollected, CheckMagic, MagicErrorLine, Missing, Required, Split;
    var lines := Split(text, '\n');
    var magic, errorLine := FindMagic(lines);
    if magic.Err? {
      return LintResult(false, map[], [LintError(errorLine, E_MAGIC)]);
    }
    var config: Config := map[];
    var errors: seq<LintError> := [];
    var i := magic.value;
    while i < |lines|
      invariant magic.value <= i <= |lines|
      invariant RunLines(LintState(config, errors, false), lines[i..], i + 1) == FinalState(lines, magic.value)
    {
      assert lines[i..][1..] == lines[i + 1..];
      var (err, config') := ParseLine(lines[i], config);
      if err.Some? {
        if err.value == E_KEY && RequiredCollected(config) {
          Stopped(LintState(config, errors, true), lines[i + 1..], i + 2);
          break;
        }
        errors := errors + [LintError(i + 1, err.value)];
      } else {
        config := config';
      }
      i := i + 1;
    }
    errors := errors + Missing(Required(config), config);
    return LintResult(errors == [], config, errors);
  }

  lemma {:induction false} Stopped(st: LintState, lines: seq<string>, lineno: nat)
    requires st.stopped
    ensures RunLines(st, lines, lineno) == st
    decreases |lines|
  {
    if lines != [] {
      Stopped(st, lines[1..], lineno + 1);
    }
  }

  lemma {:induction false} RunConcat(st: LintState, a: seq<string>, b: seq<string>, lineno: nat)
    ensures RunLines(st, a + b, lineno) == RunLines(RunLines(st, a, lineno), b, lineno + |a|)
    decreases |a|
  {
    if a == [] {
      assert a + b == b;
    } else {
      assert (a + b)[0] == a[0] && (a + b)[1..] == a[1..] + b;
      RunConcat(StepLine(st, lineno, a[0]), a[1..], b, lineno + 1);
    }
  }

  // ----- Soft end of file ------------------------------------------------------------------

  /** Keys are only added, never changed. */
  lemma ParseOnlyAdds(raw: string, config: Config)
    ensures var config' := ParseLine(raw, config).1;
            forall k :: k in config ==> k in config' && config'[k] == config[k]
  {
  }

  /** Once the required keys are there they stay there, although a later dhcp changes what is required. */
  lemma CollectedStays(raw: string, config: Config)
    requires RequiredCollected(config)
    ensures RequiredCollected(ParseLine(raw, config).1)
  {
    ParseOnlyAdds(raw, config);
    assert forall k :: k in DHCP_RELAXED_REQUIRED ==> k in REQUIRED_KEYS;
  }

  /** In a run: collected stays collected, and stopping means collected. */
  ghost predicate StopMeansCollected(st: LintState) {
    st.stopped ==> RequiredCollected(st.config)
  }

  lemma {:induction false} RunKeepsCollected(st: LintState, lines: seq<string>, lineno: nat)
    requires StopMeansCollected(st)
    ensures StopMeansCollected(RunLines(st, lines, lineno))
    ensures RequiredCollected(st.config) ==> RequiredCollected(RunLines(st, lines, lineno).config)
    decreases |lines|
  {
    if lines != [] {
      var next := StepLine(st, lineno, lines[0]);
      if RequiredCollected(st.config) {
        CollectedStays(lines[0], st.config);
      }
      RunKeepsCollected(next, lines[1..], lineno + 1);
    }
  }

  /** A run that stopped at trailing garbage reports no missing key. */
  lemma SoftEofNeverMissing(lines: seq<string>, magic: nat)
    requires magic <= |lines| && FinalState(lines, magic).stopped
    ensures Verdict(FinalState(lines, magic)).errors == FinalState(lines, magic).errors
    ensures LintError(0, E_REQ) !in Verdict(FinalState(lines, magic)).errors
  {
    RunKeepsCollected(START, lines[magic..], magic + 1);
    LineErrorsNeverMissing(START, lines[magic..], magic + 1);
  }

  lemma {:induction false} LineErrorsNeverMissing(st: LintState, lines: seq<string>, lineno: nat)
    requires forall e :: e in st.errors ==> e.code != E_REQ
    ensures forall e :: e in RunLines(st, lines, lineno).errors ==> e.code != E_REQ
    decreases |lines|
  {
    if lines != [] {
      LineErrorsNeverMissing(StepLine(st, lineno, lines[0]), lines[1..], lineno + 1);
    }
  }

  /** A line that sets a key nobody knows. */
  predicate UnknownKeyLine(raw: string) {
    var s := Shape(raw);
    s.KeyValue? && !KnownKey(s.key)
  }

  lemma {:induction false} MagicConcat(a: seq<string>, b: seq<string>, lineno: nat)
    requires CheckMagic(a, lineno).Ok?
    ensures CheckMagic(a + b, lineno) == CheckMagic(a, lineno)
  {
    assert (a + b)[0] == a[0] && (a + b)[1..] == a[1..] + b;
    if Strip(StripMagicComment(a[0])) == "" {
      MagicConcat(a[1..], b, lineno + 1);
    }
  }

  /** What a text leaves the linter with, before the final check. */
  function StateAfter(text: string): LintState
    requires CheckMagic(Split(text, '\n'), 1).Ok?
  {
    FinalState(Split(text, '\n'), CheckMagic(Split(text, '\n'), 1).value)
  }

  lemma AppendedState(text: string, tail: string)
    requires CheckMagic(Split(text, '\n'), 1).Ok?
    ensures CheckMagic(Split(text + "\n" + tail, '\n'), 1).Ok?
    ensures StateAfter(text + "\n" + tail) == RunLines(StateAfter(text), Split(tail, '\n'), |Split(text, '\n')| + 1)
  {
    hide Split, CheckMagic, RunLines;
    var a, b := Split(text, '\n'), Split(tail, '\n');
    SplitConcat(text, tail, '\n');
    MagicConcat(a, b, 1);
    var magic := CheckMagic(a, 1).value;
    assert (a + b)[magic..] == a[magic..] + b;
    RunConcat(START, a[magic..], b, magic + 1);
  }

  /**
   * Trailing garbage that begins with an unknown-key line is invisible, whatever follows it, exactly
   * when the required keys had been collected; otherwise it is reported as an unknown key.
   */
  lemma SoftEofTransparent(text: string, garbage: string)
    requires CheckMagic(Split(text, '\n'), 1).Ok?
    requires UnknownKeyLine(Split(garbage, '\n')[0])
    ensures Linted(text + "\n" + garbage) == Linted(text) <==> RequiredCollected(StateAfter(text).config)
    ensures !RequiredCollected(StateAfter(text).config) ==>
              LintError(|Split(text, '\n')| + 1, E_KEY) in Linted(text + "\n" + garbage).errors
  {
    hide Split, CheckMagic, ParseLine, RequiredCollected, RunLines, Missing, Required;
    var a, b := Split(text, '\n'), Split(garbage, '\n');
    var st := StateAfter(text);
    AppendedState(text, garbage);
    var both := StateAfter(text + "\n" + garbage);
    LintedIs(text);
    LintedIs(text + "\n" + garbage);
    StateFacts(text);
    GarbageState(st, b, |a| + 1);
    if RequiredCollected(st.config) {
      assert both.config == st.config && both.errors == st.errors;
    }
  }

  /** The whole verdict comes from the final state. */
  lemma LintedIs(text: string)
    requires CheckMagic(Split(text, '\n'), 1).Ok?
    ensures Linted(text) == Verdict(StateAfter(text))
  {
  }

  lemma StateFacts(text: string)
    requires CheckMagic(Split(text, '\n'), 1).Ok?
    ensures StopMeansCollected(StateAfter(text))
    ensures LintError(|Split(text, '\n')| + 1, E_KEY) !in Linted(text).errors
  {
    hide Split, CheckMagic, RunLines, Required, RequiredCollected;
    var lines := Split(text, '\n');
    var magic := CheckMagic(lines, 1).value;
    LintedIs(text);
    RunKeepsCollected(START, lines[magic..], magic + 1);
    ErrorsNumbered(START, lines[magic..], magic + 1);
  }

  lemma UnknownKeyParses(raw: string, config: Config)
    requires UnknownKeyLine(raw)
    ensures ParseLine(raw, config) == (Some(E_KEY), config)
  {
  }

  lemma GarbageState(st: LintState, lines: seq<string>, lineno: nat)
    requires lines != [] && UnknownKeyLine(lines[0]) && StopMeansCollected(st)
    ensures RequiredCollected(st.config) ==>
              var r := RunLines(st, lines, lineno); r.config == st.config && r.errors == st.errors
    ensures !RequiredCollected(st.config) ==> LintError(lineno, E_KEY) in RunLines(st, lines, lineno).errors
  {
    hide ParseLine, RequiredCollected, UnknownKeyLine;
    UnknownKeyParses(lines[0], st.config);
    var next := StepLine(st, lineno, lines[0]);
    if RequiredCollected(st.config) {
      assert next == st.(stopped := true);
      Stopped(next, lines[1..], lineno + 1);
    } else {
      assert next.errors == st.errors + [LintError(lineno, E_KEY)];
      ErrorsOnlyGrow(next, lines[1..], lineno + 1);
      assert RunLines(st, lines, lineno).errors[|st.errors|] == LintError(lineno, E_KEY);
    }
  }

  lemma {:induction false} ErrorsOnlyGrow(st: LintState, lines: seq<string>, lineno: nat)
    ensures st.errors <= RunLines(st, lines, lineno).errors
    decreases |lines|
  {
    if lines != [] {
      ErrorsOnlyGrow(StepLine(st, lineno, lines[0]), lines[1..], lineno + 1);
    }
  }

  lemma {:induction false} ErrorsNumbered(st: LintState, lines: seq<string>, lineno: nat)
    requires forall e :: e in st.errors ==> e.line < lineno
    ensures forall e :: e in RunLines(st, lines, lineno).errors ==> e.line < lineno + |lines|
    decreases |lines|
  {
    if lines != [] {
      ErrorsNumbered(StepLine(st, lineno, lines[0]), lines[1..], lineno + 1);
    }
  }

  // ----- Soundness ---------------------------------------------------------------------------

  ghost predicate Sound(config: Config) {
    forall k :: k in config ==> KnownKey(k) && ValidValue(k, config[k])
  }

  lemma {:induction false} RunSound(st: LintState, lines: seq<string>, lineno: nat)
    requires Sound(st.config)
    ensures Sound(RunLines(st, lines, lineno).config)
    decreases |lines|
  {
    if lines != [] {
      RunSound(StepLine(st, lineno, lines[0]), lines[1..], lineno + 1);
    }
  }

  /** An accepted text has its magic, only known keys with valid values, and every required key. */
  lemma OkIsSound(text: string)
    requires Linted(text).ok
    ensures CheckMagic(Split(text, '\n'), 1).Ok?
    ensures Sound(Linted(text).config) && RequiredCollected(Linted(text).config) && Linted(text).errors == []
  {
    hide Split, CheckMagic, RunLines;
    var lines := Split(text, '\n');
    var magic := CheckMagic(lines, 1).value;
    RunSound(START, lines[magic..], magic + 1);
  }
}
