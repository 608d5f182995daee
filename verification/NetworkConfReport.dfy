/**
 * What the linter reports, line by line: the configuration, the errors and the verdict, said of the lines, keys and
 * values of the text alone.
 */
module NetworkConfReport {
  import opened Bytes
  import opened Decimal
  import opened Text
  import opened NetworkConf

  // ----- Text ------------------------------------------------------------------------------

  /** `t` is `s` without the white space at its ends. */
  ghost predicate Trims(s: string, t: string) {
    && (t == "" || (!IsSpace(t[0]) && !IsSpace(t[|t| - 1])))
    && exists a, b :: Blank(a) && Blank(b) && s == a + t + b
  }

  /** Strip does that. */
  lemma StripTrims(s: string)
    ensures Trims(s, Strip(s))
  {
    var a := LStripLeaves(s);
    var b := RStripLeaves(LStrip(s));
    assert s == a + Strip(s) + b;
    if Strip(s) != "" {
      assert Strip(s)[0] == LStrip(s)[0];
    }
  }

  lemma {:induction false} LStripLeaves(s: string) returns (a: string)
    ensures Blank(a) && s == a + LStrip(s) && (LStrip(s) == "" || !IsSpace(LStrip(s)[0]))
  {
    if s != "" && IsSpace(s[0]) {
      var rest := LStripLeaves(s[1..]);
      a := [s[0]] + rest;
    } else {
      a := "";
    }
  }

  lemma {:induction false} RStripLeaves(s: string) returns (b: string)
    ensures Blank(b) && s == RStrip(s) + b && (RStrip(s) == "" || !IsSpace(RStrip(s)[|RStrip(s)| - 1]))
  {
    if s != "" && IsSpace(s[|s| - 1]) {
      var rest := RStripLeaves(s[..|s| - 1]);
      b := rest + [s[|s| - 1]];
    } else {
      b := "";
    }
  }

  /**
   * `t` is what stands before the first '#' that begins at `from` or later and begins the line or follows white space.
   */
  ghost predicate CutAtComment(s: string, from: nat, t: string) {
    && t <= s
    && (forall i :: from <= i < |t| ==> !(s[i] == '#' && (i == 0 || IsSpace(s[i - 1]))))
    && (|t| < |s| ==> from <= |t| && s[|t|] == '#' && (|t| == 0 || IsSpace(s[|t| - 1])))
  }

  lemma {:induction false} CommentFromIs(s: string, i: nat)
    requires i <= |s|
    ensures var k := CommentFrom(s, i);
            && (forall j :: i <= j < k ==> !(s[j] == '#' && (j == 0 || IsSpace(s[j - 1]))))
            && (k < |s| ==> s[k] == '#' && (k == 0 || IsSpace(s[k - 1])))
    decreases |s| - i
  {
    hide IsSpace;
    if i < |s| && !CommentAt(s, i) {
      CommentFromIs(s, i + 1);
    }
  }

  /** The two comment strippers cut there; the one for the magic line passes its first character over. */
  lemma CommentsAreCut(s: string)
    ensures CutAtComment(s, 0, StripInlineComment(s)) && CutAtComment(s, 1, StripMagicComment(s))
  {
    hide IsSpace;
    CommentFromIs(s, 0);
    if s != "" {
      CommentFromIs(s, 1);
    }
  }

  /** What a line holds besides its comment and the white space around. */
  function Content(raw: string): string {
    Strip(StripInlineComment(raw))
  }

  /** What a line before the settings holds. */
  function Heading(raw: string): string {
    Strip(StripMagicComment(raw))
  }

  /** The line sets a key to a value: they stand on the two sides of its first '='. */
  ghost predicate Says(raw: string, key: string, value: string) {
    exists i :: 0 <= i < |Content(raw)| && SaysAt(Content(raw), i, key, value)
  }

  ghost predicate SaysAt(line: string, i: nat, key: string, value: string)
    requires i < |line|
  {
    line[i] == '=' && '=' !in line[..i] && key == Strip(line[..i]) && value == Strip(line[i + 1..])
  }

  lemma ShapeSays(raw: string)
    ensures forall k, v :: Says(raw, k, v) <==> Shape(raw) == KeyValue(k, v)
    ensures Shape(raw) == Nothing <==> Content(raw) == ""
    ensures Shape(raw) == NoEquals <==> Content(raw) != "" && '=' !in Content(raw)
  {
    hide Strip, StripInlineComment, EqualsAt;
    var line := Content(raw);
    forall k, v ensures Says(raw, k, v) <==> Shape(raw) == KeyValue(k, v) {
      if i :| 0 <= i < |line| && SaysAt(line, i, k, v) {
        FirstEquals(line, i);
      }
      if Shape(raw) == KeyValue(k, v) {
        assert SaysAt(line, EqualsAt(line), k, v);
      }
    }
  }

  lemma FirstEquals(s: string, i: nat)
    requires i < |s| && s[i] == '=' && '=' !in s[..i]
    ensures EqualsAt(s) == i
  {
    var k := EqualsAt(s);
    assert forall j :: 0 <= j < i ==> s[j] in s[..i];
    assert forall j :: 0 <= j < k ==> s[j] in s[..k];
  }

  // ----- Keys and values -------------------------------------------------------------------

  predicate AddressKey(k: string) {
    k in {"ip", "netmask", "gateway", "ntp_server"}
  }

  predicate KeyName(k: string) {
    AddressKey(k) || k in {"hostname", "mac", "dhcp"}
  }

  predicate Alnum(c: char) {
    'a' <= c <= 'z' || 'A' <= c <= 'Z' || '0' <= c <= '9'
  }

  /** One to 63 letters, digits and, inside, hyphens. */
  predicate HostName(s: string) {
    && 1 <= |s| <= 63
    && forall i :: 0 <= i < |s| ==> Alnum(s[i]) || (s[i] == '-' && 0 < i < |s| - 1)
  }

  /** Six bytes of two characters with a colon after all but the last. */
  predicate MacAddress(s: string) {
    && |s| == 17
    && (forall i :: 0 <= i < 5 ==> s[3 * i + 2] == ':')
    && forall i :: 0 <= i < 6 ==> ValidMacByte(s[3 * i..3 * i + 2])
  }

  /** A value that the key may have. */
  ghost predicate Acceptable(k: string, v: string) {
    || (AddressKey(k) && exists a: byte, b: byte, c: byte, d: byte :: v == Dotted(a, b, c, d))
    || (k == "hostname" && HostName(v))
    || (k == "mac" && MacAddress(v))
    || (k == "dhcp" && (v == "yes" || v == "no"))
  }

  /** What is reported for a value that the key may not have. */
  predicate CodeFor(k: string, code: Code) {
    || (AddressKey(k) && code == E_IP)
    || (k == "hostname" && code == E_HOST)
    || (k == "mac" && code == E_MAC)
    || (k == "dhcp" && code == E_LINE)
  }

  lemma KeysAreNames(k: string)
    ensures KnownKey(k) <==> KeyName(k)
    ensures KnownKey(k) ==> forall code :: CodeFor(k, code) <==> code == ValueCode(k)
  {
  }

  lemma HostNameExactly(s: string)
    ensures ValidHostname(s) <==> HostName(s)
  {
    if ValidHostname(s) {
      forall i | 0 <= i < |s| ensures Alnum(s[i]) || (s[i] == '-' && 0 < i < |s| - 1) {
        assert s[i] in s;
      }
    }
  }

  lemma MacParts(p: seq<string>)
    requires |p| == 6 && forall i :: 0 <= i < 6 ==> |p[i]| == 2
    ensures var s := Join(p, ':');
            && |s| == 17 && (forall i :: 0 <= i < 5 ==> s[3 * i + 2] == ':')
            && forall i :: 0 <= i < 6 ==> s[3 * i..3 * i + 2] == p[i]
  {
    JoinOfSix(p);
    var s := Join(p, ':');
    assert s[0..2] == p[0] && s[3..5] == p[1] && s[6..8] == p[2] && s[9..11] == p[3] && s[12..14] == p[4];
    assert s[15..17] == p[5];
    forall i | 0 <= i < 6 ensures s[3 * i..3 * i + 2] == p[i] {
      assert i == 0 || i == 1 || i == 2 || i == 3 || i == 4 || i == 5;
    }
  }

  lemma JoinOfSix(p: seq<string>)
    requires |p| == 6
    ensures Join(p, ':') == p[0] + ":" + p[1] + ":" + p[2] + ":" + p[3] + ":" + p[4] + ":" + p[5]
  {
    assert p[1..][1..] == p[2..] && p[2..][1..] == p[3..] && p[3..][1..] == p[4..] && p[4..][1..] == p[5..];
    assert p[5..] == [p[5]];
    assert Join(p[5..], ':') == p[5];
    assert Join(p[4..], ':') == p[4] + [':'] + p[5];
    assert Join(p[3..], ':') == p[3] + [':'] + (p[4] + [':'] + p[5]);
    assert Join(p[2..], ':') == p[2] + [':'] + (p[3] + [':'] + (p[4] + [':'] + p[5]));
    assert Join(p[1..], ':') == p[1] + [':'] + (p[2] + [':'] + (p[3] + [':'] + (p[4] + [':'] + p[5])));
  }

  lemma MacExactly(s: string)
    ensures ValidMac(s) <==> MacAddress(s)
  {
    hide Split, Join, ValidMacByte, MacAddress;
    MacBytes();
    if ValidMac(s) {
      var p := Split(s, ':');
      JoinSplit(s, ':');
      assert forall i :: 0 <= i < 6 ==> p[i] in p;
      MacJoined(p);
    }
    if MacAddress(s) {
      var p := MacSplit(s);
      SplitJoin(p, ':');
    }
  }

  lemma MacJoined(p: seq<string>)
    requires |p| == 6 && forall i :: 0 <= i < 6 ==> ValidMacByte(p[i])
    ensures MacAddress(Join(p, ':'))
  {
    hide Join, ValidMacByte;
    MacBytes();
    MacParts(p);
    var s := Join(p, ':');
    forall i | 0 <= i < 6 ensures ValidMacByte(s[3 * i..3 * i + 2]) {
      assert s[3 * i..3 * i + 2] == p[i];
    }
  }

  lemma MacSplit(s: string) returns (p: seq<string>)
    requires MacAddress(s)
    ensures |p| == 6 && s == Join(p, ':') && forall q :: q in p ==> ValidMacByte(q) && ':' !in q
  {
    hide Join, ValidMacByte;
    MacBytes();
    SixBytes(s);
    p := [s[0..2], s[3..5], s[6..8], s[9..11], s[12..14], s[15..17]];
    hide MacAddress;
    Assembled(s);
    JoinOfSix(p);
  }

  lemma SixBytes(s: string)
    requires MacAddress(s)
    ensures |s| == 17 && s[2] == s[5] == s[8] == s[11] == s[14] == ':'
    ensures ValidMacByte(s[0..2]) && ValidMacByte(s[3..5]) && ValidMacByte(s[6..8])
    ensures ValidMacByte(s[9..11]) && ValidMacByte(s[12..14]) && ValidMacByte(s[15..17])
  {
    hide ValidMacByte;
    assert s[3 * 0 + 2] == s[3 * 1 + 2] == s[3 * 2 + 2] == s[3 * 3 + 2] == s[3 * 4 + 2] == ':';
    assert ValidMacByte(s[3 * 0..3 * 0 + 2]) && ValidMacByte(s[3 * 1..3 * 1 + 2]) && ValidMacByte(s[3 * 2..3 * 2 + 2]);
    assert ValidMacByte(s[3 * 3..3 * 3 + 2]) && ValidMacByte(s[3 * 4..3 * 4 + 2]) && ValidMacByte(s[3 * 5..3 * 5 + 2]);
  }

  lemma Assembled(s: string)
    requires |s| == 17 && s[2] == s[5] == s[8] == s[11] == s[14] == ':'
    ensures s == s[0..2] + ":" + s[3..5] + ":" + s[6..8] + ":" + s[9..11] + ":" + s[12..14] + ":" + s[15..17]
  {
  }

  lemma MacBytes()
    ensures forall p :: ValidMacByte(p) ==> |p| == 2 && ':' !in p
  {
  }

  lemma ValuesAreAcceptable(k: string, v: string)
    ensures KnownKey(k) && ValidValue(k, v) <==> Acceptable(k, v)
  {
    hide ValidIp, Dotted, ValidMac, ValidHostname, HostName, MacAddress;
    Ipv4Exactly(v);
    HostNameExactly(v);
    MacExactly(v);
  }

  // ----- Lines, one after the other --------------------------------------------------------

  ghost predicate Sets(raw: string, k: string) {
    exists v :: Says(raw, k, v) && Acceptable(k, v)
  }

  /** Some line from `m` on, before the i-th, set the key. */
  ghost predicate SetBefore(lines: seq<string>, m: nat, i: nat, k: string)
    requires i <= |lines|
  {
    exists j :: m <= j < i && Sets(lines[j], k)
  }

  /** The first such line gave it this value. */
  ghost predicate Assigned(lines: seq<string>, m: nat, i: nat, k: string, v: string)
    requires i <= |lines|
  {
    exists j :: m <= j < i && Says(lines[j], k, v) && Acceptable(k, v) && !SetBefore(lines, m, j, k)
  }

  /** The required keys are there: the name under dhcp, the three addresses too otherwise. */
  ghost predicate Collected(lines: seq<string>, m: nat, i: nat)
    requires i <= |lines|
  {
    && SetBefore(lines, m, i, "hostname")
    && (Assigned(lines, m, i, "dhcp", "yes")
        || (SetBefore(lines, m, i, "ip") && SetBefore(lines, m, i, "netmask") && SetBefore(lines, m, i, "gateway")))
  }

  /** The line names a key that does not exist when all required ones are there. */
  ghost predicate SoftEnd(lines: seq<string>, m: nat, i: nat)
    requires i < |lines|
  {
    Collected(lines, m, i) && exists k, v :: Says(lines[i], k, v) && !KeyName(k)
  }

  /** The first rule that a line breaks. */
  ghost predicate Breaks(lines: seq<string>, m: nat, i: nat, code: Code)
    requires i < |lines|
  {
    || (Content(lines[i]) != "" && '=' !in Content(lines[i]) && code == E_LINE)
    || (exists k, v :: Says(lines[i], k, v) && SettingBreaks(lines, m, i, k, v, code))
  }

  ghost predicate SettingBreaks(lines: seq<string>, m: nat, i: nat, k: string, v: string, code: Code)
    requires i < |lines|
  {
    if !KeyName(k) then code == E_KEY
    else if SetBefore(lines, m, i, k) then code == E_DUP
    else !Acceptable(k, v) && CodeFor(k, code)
  }

  /** The text is read up to here: to a soft end or to its last line. */
  ghost predicate Ends(lines: seq<string>, m: nat, e: nat) {
    && m <= e <= |lines|
    && (forall i :: m <= i < e ==> !SoftEnd(lines, m, i))
    && (e < |lines| ==> SoftEnd(lines, m, e))
  }

  lemma SetBeforeNext(lines: seq<string>, m: nat, i: nat, k: string)
    requires m <= i < |lines|
    ensures SetBefore(lines, m, i + 1, k) <==> SetBefore(lines, m, i, k) || Sets(lines[i], k)
  {
    hide Sets;
  }

  lemma AssignedNext(lines: seq<string>, m: nat, i: nat, k: string, v: string)
    requires m <= i < |lines|
    ensures Assigned(lines, m, i + 1, k, v) <==>
            Assigned(lines, m, i, k, v)
            || (Says(lines[i], k, v) && Acceptable(k, v) && !SetBefore(lines, m, i, k))
  {
    hide Says, Acceptable, SetBefore;
  }

  // ----- The linter keeps exactly that -------------------------------------------------------

  ghost predicate KeepsConfig(lines: seq<string>, m: nat, i: nat, config: Config)
    requires i <= |lines|
  {
    && (forall k :: k in config <==> SetBefore(lines, m, i, k))
    && (forall k, v :: (k in config && config[k] == v) <==> Assigned(lines, m, i, k, v))
  }

  ghost predicate KeepsErrors(lines: seq<string>, m: nat, i: nat, errors: seq<LintError>)
    requires i <= |lines|
  {
    && (forall n: nat, code :: LintError(n, code) in errors <==> m < n <= i && Breaks(lines, m, n - 1, code))
    && (forall a, b :: 0 <= a < b < |errors| ==> errors[a].line < errors[b].line)
  }

  lemma CollectedIs(lines: seq<string>, m: nat, i: nat, config: Config)
    requires m <= i <= |lines| && KeepsConfig(lines, m, i, config)
    ensures RequiredCollected(config) <==> Collected(lines, m, i)
    ensures |Missing(Required(config), config)| ==
            (if "hostname" in config then 0 else 1)
            + if Assigned(lines, m, i, "dhcp", "yes") then 0
              else (if "ip" in config then 0 else 1) + (if "netmask" in config then 0 else 1)
                   + if "gateway" in config then 0 else 1
  {
    hide SetBefore, Assigned;
    assert "dhcp" in config && config["dhcp"] == "yes" <==> Assigned(lines, m, i, "dhcp", "yes");
    var required := Required(config);
    if Assigned(lines, m, i, "dhcp", "yes") {
      MissingOne(config);
      assert required == ["hostname"];
      assert RequiredCollected(config) <==> "hostname" in config;
    } else {
      MissingFour(config);
      assert required == ["ip", "netmask", "gateway", "hostname"];
      assert required[0] in required && required[1] in required && required[2] in required && required[3] in required;
    }
  }

  lemma MissingOne(config: Config)
    ensures |Missing(["hostname"], config)| == if "hostname" in config then 0 else 1
  {
    assert ["hostname"][1..] == [];
  }

  lemma MissingFour(config: Config)
    ensures |Missing(["ip", "netmask", "gateway", "hostname"], config)| ==
            (if "ip" in config then 0 else 1) + (if "netmask" in config then 0 else 1)
            + (if "gateway" in config then 0 else 1) + if "hostname" in config then 0 else 1
  {
    MissingOne(config);
    hide Missing;
    MissingCons("ip", ["netmask", "gateway", "hostname"], config);
    MissingCons("netmask", ["gateway", "hostname"], config);
    MissingCons("gateway", ["hostname"], config);
    assert ["ip"] + ["netmask", "gateway", "hostname"] == ["ip", "netmask", "gateway", "hostname"];
    assert ["netmask"] + ["gateway", "hostname"] == ["netmask", "gateway", "hostname"];
    assert ["gateway"] + ["hostname"] == ["gateway", "hostname"];
  }

  lemma MissingCons(k: string, rest: seq<string>, config: Config)
    ensures |Missing([k] + rest, config)| == (if k in config then 0 else 1) + |Missing(rest, config)|
  {
    assert ([k] + rest)[1..] == rest;
  }

  /** No setting, or none that takes effect: the configuration stands for one line more. */
  lemma ConfigStays(lines: seq<string>, m: nat, i: nat, config: Config)
    requires m <= i < |lines| && KeepsConfig(lines, m, i, config)
    requires forall k, v :: Says(lines[i], k, v) ==> !Acceptable(k, v) || SetBefore(lines, m, i, k)
    ensures KeepsConfig(lines, m, i + 1, config)
  {
    hide Says, Acceptable, SetBefore, Assigned;
    var after := i + 1;
    forall k ensures SetBefore(lines, m, after, k) <==> k in config {
      SetBeforeNext(lines, m, i, k);
    }
    forall k, v ensures Assigned(lines, m, after, k, v) <==> k in config && config[k] == v {
      AssignedNext(lines, m, i, k, v);
    }
  }

  lemma ConfigGrows(lines: seq<string>, m: nat, i: nat, config: Config, k: string, v: string)
    requires m <= i < |lines| && KeepsConfig(lines, m, i, config) && Acceptable(k, v) && !SetBefore(lines, m, i, k)
    requires forall k', v' :: Says(lines[i], k', v') <==> k' == k && v' == v
    ensures KeepsConfig(lines, m, i + 1, config[k := v])
  {
    hide Says, Acceptable, SetBefore, Assigned;
    assert Says(lines[i], k, v);
    assert k !in config;
    var next, after := config[k := v], i + 1;
    forall k' ensures SetBefore(lines, m, after, k') <==> k' in next {
      SetBeforeNext(lines, m, i, k');
    }
    forall k', v' ensures Assigned(lines, m, after, k', v') <==> k' in next && next[k'] == v' {
      AssignedNext(lines, m, i, k', v');
      assert k' == k ==> !Assigned(lines, m, i, k', v');
    }
  }

  /** What a line does to the configuration, and the rule it breaks. */
  lemma LineKeepsConfig(lines: seq<string>, m: nat, i: nat, config: Config)
    requires m <= i < |lines| && KeepsConfig(lines, m, i, config)
    ensures KeepsConfig(lines, m, i + 1, ParseLine(lines[i], config).1)
    ensures forall code :: ParseLine(lines[i], config).0 == Some(code) <==> Breaks(lines, m, i, code)
    ensures ParseLine(lines[i], config).0 == Some(E_KEY) <==> exists k, v :: Says(lines[i], k, v) && !KeyName(k)
  {
    var raw := lines[i];
    ShapeSays(raw);
    hide KeepsConfig, Says, SetBefore, Acceptable, Shape, KnownKey, ValidValue, ValueCode, CodeFor, KeyName, Content;
    if Shape(raw).KeyValue? {
      var k, v := Shape(raw).key, Shape(raw).value;
      KeysAreNames(k);
      ValuesAreAcceptable(k, v);
      KeyLine(lines, m, i, config, k, v);
      hide ParseLine, Breaks;
      if Acceptable(k, v) && !SetBefore(lines, m, i, k) {
        ConfigGrows(lines, m, i, config, k, v);
      } else {
        ConfigStays(lines, m, i, config);
      }
      assert Says(raw, k, v);
    } else {
      assert forall k, v :: !Says(raw, k, v);
      ConfigStays(lines, m, i, config);
    }
  }

  lemma KeyLine(lines: seq<string>, m: nat, i: nat, config: Config, k: string, v: string)
    requires m <= i < |lines| && KeepsConfig(lines, m, i, config)
    requires Shape(lines[i]) == KeyValue(k, v) && forall k', v' :: Says(lines[i], k', v') <==> k' == k && v' == v
    requires Content(lines[i]) == "" || '=' in Content(lines[i])
    requires KnownKey(k) <==> KeyName(k)
    requires KnownKey(k) ==> forall code :: CodeFor(k, code) <==> code == ValueCode(k)
    requires KnownKey(k) && ValidValue(k, v) <==> Acceptable(k, v)
    ensures var (err, config') := ParseLine(lines[i], config);
            && (forall code :: err == Some(code) <==> Breaks(lines, m, i, code))
            && (err == Some(E_KEY) <==> !KeyName(k))
            && config' == if err.None? then config[k := v] else config
    ensures var (err, _) := ParseLine(lines[i], config);
            err.None? <==> Acceptable(k, v) && !SetBefore(lines, m, i, k)
  {
    hide Says, SetBefore, Assigned, Acceptable, Shape, KnownKey, ValidValue, ValueCode, CodeFor, KeyName, Content;
    assert Says(lines[i], k, v);
    assert k in config <==> SetBefore(lines, m, i, k);
    CodeIsNoKey(k);
  }

  lemma CodeIsNoKey(k: string)
    ensures ValueCode(k) != E_KEY
  {
  }

  lemma StepKeeps(lines: seq<string>, m: nat, i: nat, st: LintState)
    requires m <= i < |lines| && !st.stopped && KeepsConfig(lines, m, i, st.config)
             && KeepsErrors(lines, m, i, st.errors)
    ensures var next := StepLine(st, i + 1, lines[i]);
            && (SoftEnd(lines, m, i) ==> next == st.(stopped := true))
            && (!SoftEnd(lines, m, i) ==>
                  && !next.stopped && KeepsConfig(lines, m, i + 1, next.config)
                  && KeepsErrors(lines, m, i + 1, next.errors))
  {
    LineKeepsConfig(lines, m, i, st.config);
    CollectedIs(lines, m, i, st.config);
    var next := StepLine(st, i + 1, lines[i]);
    var err := ParseLine(lines[i], st.config).0;
    hide KeepsConfig, ParseLine, Breaks, Collected, RequiredCollected, Says, KeyName;
    if !SoftEnd(lines, m, i) {
      assert next.errors == st.errors + if err.Some? then [LintError(i + 1, err.value)] else [];
      ErrorsNext(lines, m, i, st.errors, err);
      FailedKeeps(lines[i], st.config);
    }
  }

  lemma FailedKeeps(raw: string, config: Config)
    ensures ParseLine(raw, config).0.Some? ==> ParseLine(raw, config).1 == config
  {
  }

  lemma ErrorsNext(lines: seq<string>, m: nat, i: nat, errors: seq<LintError>, err: Option<Code>)
    requires m <= i < |lines| && KeepsErrors(lines, m, i, errors)
    requires forall code :: err == Some(code) <==> Breaks(lines, m, i, code)
    ensures KeepsErrors(lines, m, i + 1, errors + if err.Some? then [LintError(i + 1, err.value)] else [])
  {
    hide Breaks;
    forall e | e in errors ensures m < e.line <= i {
      assert LintError(e.line, e.code) in errors;
    }
  }

  lemma {:induction false} RunKeeps(lines: seq<string>, m: nat, i: nat, e: nat, st: LintState)
    requires m <= i <= e && Ends(lines, m, e) && !st.stopped
    requires KeepsConfig(lines, m, i, st.config) && KeepsErrors(lines, m, i, st.errors)
    ensures var final := RunLines(st, lines[i..], i + 1);
            KeepsConfig(lines, m, e, final.config) && KeepsErrors(lines, m, e, final.errors)
    decreases |lines| - i
  {
    hide KeepsConfig, KeepsErrors, SoftEnd, StepLine;
    if i < |lines| {
      StepKeeps(lines, m, i, st);
      assert lines[i..][0] == lines[i] && lines[i..][1..] == lines[i + 1..];
      var next := StepLine(st, i + 1, lines[i]);
      if i < e {
        RunKeeps(lines, m, i + 1, e, next);
      } else {
        Stopped(next, lines[i + 1..], i + 2);
      }
    }
  }

  lemma NothingYet(lines: seq<string>, m: nat)
    requires m <= |lines|
    ensures KeepsConfig(lines, m, m, map[]) && KeepsErrors(lines, m, m, [])
  {
  }

  /** There is always such an end. */
  lemma {:induction false} EndFrom(lines: seq<string>, m: nat, i: nat) returns (e: nat)
    requires m <= i <= |lines| && forall j :: m <= j < i ==> !SoftEnd(lines, m, j)
    ensures Ends(lines, m, e)
    decreases |lines| - i
  {
    hide SoftEnd;
    if i < |lines| && !SoftEnd(lines, m, i) {
      e := EndFrom(lines, m, i + 1);
    } else {
      e := i;
    }
  }

  // ----- The magic line ------------------------------------------------------------------------

  /** The first line that is not blank is the magic. */
  ghost predicate MagicAt(lines: seq<string>, m: nat) {
    && 1 <= m <= |lines| && Heading(lines[m - 1]) == "# WSPI5CFG"
    && forall i :: 0 <= i < m - 1 ==> Heading(lines[i]) == ""
  }

  /** The first line that is not blank is another one; line 0 stands for there being none. */
  ghost predicate OtherAt(lines: seq<string>, n: nat) {
    && n <= |lines| && (forall i :: 0 <= i < (if n == 0 then |lines| else n - 1) ==> Heading(lines[i]) == "")
    && (n > 0 ==> Heading(lines[n - 1]) != "" && Heading(lines[n - 1]) != "# WSPI5CFG")
  }

  lemma {:induction false} MagicFrom(lines: seq<string>, i: nat)
    requires i <= |lines| && forall j :: 0 <= j < i ==> Heading(lines[j]) == ""
    ensures forall m: nat :: MagicAt(lines, m) <==> CheckMagic(lines[i..], i + 1) == Ok(m)
    ensures forall n: nat :: OtherAt(lines, n) <==>
                        CheckMagic(lines[i..], i + 1).Err? && n == MagicErrorLine(lines[i..], i + 1)
    decreases |lines| - i
  {
    hide Strip, StripMagicComment;
    if i < |lines| {
      assert lines[i..][0] == lines[i] && lines[i..][1..] == lines[i + 1..];
      if Heading(lines[i]) == "" {
        MagicFrom(lines, i + 1);
      } else {
        assert forall m: nat :: MagicAt(lines, m) ==> m == i + 1;
        assert forall n: nat :: OtherAt(lines, n) ==> n == i + 1;
      }
    }
  }

  // ----- The report ------------------------------------------------------------------------------

  /** The whole result for a text with its magic on line `m` that is read up to line `e`. */
  ghost predicate Report(lines: seq<string>, m: nat, e: nat, r: LintResult) {
    && e <= |lines| && (r.ok <==> r.errors == [])
    && (forall k, v :: (k in r.config && r.config[k] == v) <==> Assigned(lines, m, e, k, v))
    && ErrorsFit(lines, m, e, r.errors)
  }

  /** Exactly the rules broken on lines up to the end, in order, and one E_REQ for each key that is missing. */
  ghost predicate ErrorsFit(lines: seq<string>, m: nat, e: nat, errors: seq<LintError>)
    requires e <= |lines|
  {
    && (forall n: nat, code ::
          LintError(n, code) in errors <==>
          (m < n <= e && Breaks(lines, m, n - 1, code)) || (n == 0 && code == E_REQ && !Collected(lines, m, e)))
    && exists cut :: 0 <= cut <= |errors| && InOrder(errors, cut) && |errors| - cut == Lacking(lines, m, e)
  }

  /** Line errors in the order of the lines, at most one each, and then those for missing keys. */
  ghost predicate InOrder(errors: seq<LintError>, cut: nat)
    requires cut <= |errors|
  {
    && (forall a, b :: 0 <= a < b < cut ==> errors[a].line < errors[b].line)
    && (forall a :: 0 <= a < cut ==> errors[a].line > 0)
    && (forall a :: cut <= a < |errors| ==> errors[a] == LintError(0, E_REQ))
  }

  /** How many required keys are missing. */
  ghost function Lacking(lines: seq<string>, m: nat, e: nat): nat
    requires e <= |lines|
  {
    (if SetBefore(lines, m, e, "hostname") then 0 else 1)
    + if Assigned(lines, m, e, "dhcp", "yes") then 0
      else (if SetBefore(lines, m, e, "ip") then 0 else 1) + (if SetBefore(lines, m, e, "netmask") then 0 else 1)
           + if SetBefore(lines, m, e, "gateway") then 0 else 1
  }

  lemma VerdictReports(lines: seq<string>, m: nat, e: nat, st: LintState)
    requires m <= e <= |lines| && KeepsConfig(lines, m, e, st.config) && KeepsErrors(lines, m, e, st.errors)
    ensures Report(lines, m, e, Verdict(st))
  {
    CollectedIs(lines, m, e, st.config);
    MissingIsLacking(lines, m, e, st.config);
    NothingMissing(st.config);
    hide SetBefore, Assigned, Collected, RequiredCollected, Required, Lacking, KeepsErrors, Missing, ErrorsFit;
    ErrorsReport(lines, m, e, st.errors, Missing(Required(st.config), st.config));
  }

  lemma MissingIsLacking(lines: seq<string>, m: nat, e: nat, config: Config)
    requires m <= e <= |lines| && KeepsConfig(lines, m, e, config)
    ensures |Missing(Required(config), config)| == Lacking(lines, m, e)
  {
    CollectedIs(lines, m, e, config);
    hide SetBefore, Assigned, Required, Missing;
  }

  lemma ErrorsReport(lines: seq<string>, m: nat, e: nat, errors: seq<LintError>, missing: seq<LintError>)
    requires m <= e <= |lines| && KeepsErrors(lines, m, e, errors) && |missing| == Lacking(lines, m, e)
    requires (missing == [] <==> Collected(lines, m, e)) && forall x :: x in missing ==> x == LintError(0, E_REQ)
    ensures ErrorsFit(lines, m, e, errors + missing)
  {
    hide Breaks, Collected, Lacking;
    forall a | 0 <= a < |errors| ensures errors[a].line > m {
      assert LintError(errors[a].line, errors[a].code) in errors;
    }
    forall a | |errors| <= a < |errors + missing| ensures (errors + missing)[a] == LintError(0, E_REQ) {
      assert missing[a - |errors|] in missing;
    }
    if missing != [] {
      assert missing[0] in missing;
    }
    assert InOrder(errors + missing, |errors|);
  }

  lemma NothingMissing(config: Config)
    ensures Missing(Required(config), config) == [] <==> RequiredCollected(config)
  {
  }

  /**
   * For every text: without the magic it is refused on the line where the magic should be; with it, the configuration
   * and the errors are exactly those that the lines up to the end give.
   */
  lemma LintReports(text: string)
    ensures var lines, r := Split(text, '\n'), Linted(text);
            && (forall n: nat :: OtherAt(lines, n) ==> r == LintResult(false, map[], [LintError(n, E_MAGIC)]))
            && (forall m: nat, e: nat :: MagicAt(lines, m) && Ends(lines, m, e) ==> Report(lines, m, e, r))
            && ((exists m: nat, e: nat :: MagicAt(lines, m) && Ends(lines, m, e))
                || exists n: nat :: OtherAt(lines, n))
  {
    var lines, r := Split(text, '\n'), Linted(text);
    hide Linted, Split, MagicAt, OtherAt, Ends, Report;
    forall n: nat | OtherAt(lines, n) ensures r == LintResult(false, map[], [LintError(n, E_MAGIC)]) {
      WithoutMagic(text, n);
    }
    forall m: nat, e: nat | MagicAt(lines, m) && Ends(lines, m, e) ensures Report(lines, m, e, r) {
      WithMagic(text, m, e);
    }
    MagicOrOther(lines);
  }

  lemma MagicOrOther(lines: seq<string>)
    ensures (exists m: nat, e: nat :: MagicAt(lines, m) && Ends(lines, m, e)) || exists n: nat :: OtherAt(lines, n)
  {
    MagicFrom(lines, 0);
    assert lines[0..] == lines;
    hide CheckMagic, MagicErrorLine, MagicAt, OtherAt, Ends;
    if CheckMagic(lines, 1).Ok? {
      var m := CheckMagic(lines, 1).value;
      var e := EndFrom(lines, m, m);
      assert MagicAt(lines, m) && Ends(lines, m, e);
    } else {
      assert OtherAt(lines, MagicErrorLine(lines, 1));
    }
  }

  lemma WithoutMagic(text: string, n: nat)
    requires OtherAt(Split(text, '\n'), n)
    ensures Linted(text) == LintResult(false, map[], [LintError(n, E_MAGIC)])
  {
    var lines := Split(text, '\n');
    MagicFrom(lines, 0);
    assert lines[0..] == lines;
    hide Split, CheckMagic, MagicErrorLine, MagicAt, OtherAt;
  }

  lemma WithMagic(text: string, m: nat, e: nat)
    requires MagicAt(Split(text, '\n'), m) && Ends(Split(text, '\n'), m, e)
    ensures e <= |Split(text, '\n')| && Report(Split(text, '\n'), m, e, Linted(text))
  {
    var lines := Split(text, '\n');
    hide Split, CheckMagic, MagicAt, Report, Verdict, FinalState;
    OneMagic(lines, m);
    EndsInside(lines, m, e);
    FinalReports(lines, m, e);
  }

  lemma FinalReports(lines: seq<string>, m: nat, e: nat)
    requires m <= |lines| && Ends(lines, m, e)
    ensures e <= |lines| && Report(lines, m, e, Verdict(FinalState(lines, m)))
  {
    NothingYet(lines, m);
    RunKeeps(lines, m, m, e, START);
    hide KeepsConfig, KeepsErrors, Verdict, Report;
    VerdictReports(lines, m, e, FinalState(lines, m));
  }

  lemma EndsInside(lines: seq<string>, m: nat, e: nat)
    requires Ends(lines, m, e)
    ensures m <= e <= |lines|
  {
  }

  /** A line that says nothing, or sets a key that was not set before to a value it may have. */
  ghost predicate GoodLine(lines: seq<string>, m: nat, i: nat)
    requires i < |lines|
  {
    Content(lines[i]) == "" || exists k, v :: Says(lines[i], k, v) && Acceptable(k, v) && !SetBefore(lines, m, i, k)
  }

  lemma GoodIsUnbroken(lines: seq<string>, m: nat, i: nat)
    requires m <= i < |lines|
    ensures GoodLine(lines, m, i) <==> forall code :: !Breaks(lines, m, i, code)
  {
    var raw := lines[i];
    ShapeSays(raw);
    hide Says, SetBefore, Acceptable, Shape, KeyName, CodeFor, Content;
    if Shape(raw).KeyValue? {
      var k, v := Shape(raw).key, Shape(raw).value;
      assert Says(raw, k, v);
      SomeCode(k, v);
      if Acceptable(k, v) && !SetBefore(lines, m, i, k) {
        assert GoodLine(lines, m, i);
      } else {
        var code := if !KeyName(k) then E_KEY else if SetBefore(lines, m, i, k) then E_DUP else ValueCode(k);
        assert SettingBreaks(lines, m, i, k, v, code);
        assert Breaks(lines, m, i, code);
        assert !GoodLine(lines, m, i);
      }
    } else if Shape(raw) == NoEquals {
      assert Breaks(lines, m, i, E_LINE);
    }
  }

  lemma SomeCode(k: string, v: string)
    ensures KeyName(k) ==> CodeFor(k, ValueCode(k))
    ensures Acceptable(k, v) ==> KeyName(k)
  {
  }

  /** A text lints ok exactly when it has the magic, only good lines up to the end, and every required key. */
  lemma OkIff(text: string)
    ensures var lines := Split(text, '\n');
            Linted(text).ok <==> exists m: nat, e: nat :: MagicAt(lines, m) && Ends(lines, m, e) && AllGood(lines, m, e)
  {
    var lines, r := Split(text, '\n'), Linted(text);
    LintReports(text);
    hide Linted, Split, MagicAt, OtherAt, Ends, Report, AllGood;
    if m: nat, e: nat :| MagicAt(lines, m) && Ends(lines, m, e) {
      OneMagic(lines, m);
      EndsInside(lines, m, e);
      ReportOk(lines, m, e, r);
      forall m': nat, e': nat | MagicAt(lines, m') && Ends(lines, m', e') ensures m' == m && e' == e {
        OneMagic(lines, m');
        OneEnd(lines, m, e, e');
      }
    }
  }

  ghost predicate AllGood(lines: seq<string>, m: nat, e: nat) {
    e <= |lines| && Collected(lines, m, e) && forall i :: m <= i < e ==> GoodLine(lines, m, i)
  }

  lemma ReportOk(lines: seq<string>, m: nat, e: nat, r: LintResult)
    requires m <= e <= |lines| && Report(lines, m, e, r)
    ensures r.ok <==> AllGood(lines, m, e)
  {
    hide InOrder, Lacking, Assigned, Breaks, Collected;
    forall i | m <= i < e ensures GoodLine(lines, m, i) <==> forall code :: !Breaks(lines, m, i, code) {
      GoodIsUnbroken(lines, m, i);
    }
    hide GoodLine;
    if r.errors != [] {
      assert LintError(r.errors[0].line, r.errors[0].code) in r.errors;
    }
    if !Collected(lines, m, e) {
      assert LintError(0, E_REQ) in r.errors;
    }
    if i, code :| m <= i < e && Breaks(lines, m, i, code) {
      assert LintError(i + 1, code) in r.errors;
      assert !GoodLine(lines, m, i);
    }
  }

  lemma OneMagic(lines: seq<string>, m: nat)
    requires MagicAt(lines, m)
    ensures CheckMagic(lines, 1) == Ok(m) && m <= |lines|
  {
    assert lines[0..] == lines;
    MagicFrom(lines, 0);
    hide MagicAt, CheckMagic;
  }

  lemma OneEnd(lines: seq<string>, m: nat, e: nat, e': nat)
    requires Ends(lines, m, e) && Ends(lines, m, e')
    ensures e == e'
  {
    hide SoftEnd;
  }
}
