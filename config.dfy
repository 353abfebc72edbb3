/**
 * The plain-text policy parser of src/config.rs (`gen_config`): a two-mode
 * machine over the lines `read_line` returns, terminators included.  Blank
 * and `#` lines are dropped, the four exact header lines switch the mode,
 * and every other line becomes a scan root (appended in order) or an
 * ignored path (inserted into a set), with its trailing newlines removed.
 */
module Config {
  import opened Wrappers
  import opened Crypto

  datatype ActionType = Scan | Ignore

  /** The policy record, without its random hashing secret. */
  datatype Config = Config(scans: seq<string>, ignores: set<string>)

  /** The parser's state between two lines: the current mode and the policy so far. */
  datatype ParserState = ParserState(mode: ActionType, config: Config)

  const INITIAL: ParserState := ParserState(Scan, Config([], {}))

  // ---------------------------------------------------------------------
  // Line classification
  // ---------------------------------------------------------------------

  /** Rust's `char::is_whitespace`: the Unicode White_Space property. */
  predicate IsWhitespace(c: char) {
    || ('\t' <= c <= '\r')
    || c == ' '
    || c == '\U{85}'
    || c == '\U{A0}'
    || c == '\U{1680}'
    || ('\U{2000}' <= c <= '\U{200A}')
    || c == '\U{2028}'
    || c == '\U{2029}'
    || c == '\U{202F}'
    || c == '\U{205F}'
    || c == '\U{3000}'
  }

  /** `str::trim_start`: the line without its leading whitespace. */
  function TrimStart(s: string): string {
    if s != [] && IsWhitespace(s[0]) then TrimStart(s[1..]) else s
  }

  /** TrimStart removes exactly the leading run of whitespace. */
  lemma {:induction false} TrimStartSpec(s: string)
    ensures var t := TrimStart(s);
      && |t| <= |s| && t == s[|s| - |t|..]
      && (forall i :: 0 <= i < |s| - |t| ==> IsWhitespace(s[i]))
      && (t == [] || !IsWhitespace(t[0]))
  {
    if s != [] && IsWhitespace(s[0]) {
      var rest := s[1..];
      TrimStartSpec(rest);
      var t := TrimStart(rest);
      assert TrimStart(s) == t;
      assert rest[|rest| - |t|..] == s[|s| - |t|..];
      forall i | 0 <= i < |s| - |t|
        ensures IsWhitespace(s[i])
      {
        if i > 0 {
          assert s[i] == rest[i - 1];
        }
      }
    }
  }

  /** `str::trim_end_matches('\n')`: the line without its trailing newlines. */
  function TrimEndNewlines(s: string): string {
    if s != [] && s[|s| - 1] == '\n' then TrimEndNewlines(s[..|s| - 1]) else s
  }

  /**
   * TrimEndNewlines removes exactly the trailing run of newlines and keeps
   * everything before it, leading whitespace included.
   */
  lemma {:induction false} TrimEndNewlinesSpec(s: string)
    ensures var t := TrimEndNewlines(s);
      && |t| <= |s| && t == s[..|t|]
      && (forall i :: |t| <= i < |s| ==> s[i] == '\n')
      && (t == [] || t[|t| - 1] != '\n')
  {
    if s != [] && s[|s| - 1] == '\n' {
      TrimEndNewlinesSpec(s[..|s| - 1]);
    }
  }

  /** `line.trim().is_empty()`: nothing but whitespace. */
  predicate IsBlank(line: string) {
    TrimStart(line) == []
  }

  /** `line.trim_start().starts_with('#')`. */
  predicate IsComment(line: string) {
    var t := TrimStart(line);
    t != [] && t[0] == '#'
  }

  /** Lines the parser drops without looking further. */
  predicate IsSkipped(line: string) {
    IsComment(line) || IsBlank(line)
  }

  /** The mode an exact header line selects; any other line is not a header. */
  function HeaderMode(line: string): Option<ActionType> {
    if line == "[SCAN]\n" || line == "[scan]\n" then Some(Scan)
    else if line == "[IGNORE]\n" || line == "[ignore]\n" then Some(Ignore)
    else None
  }

  /** Lines that contribute an entry to the policy. */
  predicate IsEntry(line: string) {
    !IsSkipped(line) && HeaderMode(line).None?
  }

  // ---------------------------------------------------------------------
  // The parser as a function of its input
  // ---------------------------------------------------------------------

  /** One pass of the loop of gen_config. */
  function Step(st: ParserState, line: string): ParserState {
    if IsSkipped(line) then st
    else
      match HeaderMode(line)
      case Some(m) => st.(mode := m)
      case None =>
        match st.mode
        case Scan => st.(config := st.config.(scans := st.config.scans + [TrimEndNewlines(line)]))
        case Ignore => st.(config := st.config.(ignores := st.config.ignores + {TrimEndNewlines(line)}))
  }

  /** The state after the loop has consumed `lines`. */
  function Parse(lines: seq<string>): ParserState {
    if lines == [] then INITIAL
    else Step(Parse(lines[..|lines| - 1]), lines[|lines| - 1])
  }

  /** gen_config's loop over the lines of the plain policy file. */
  method ParsePolicy(lines: seq<string>) returns (config: Config)
    ensures config == Parse(lines).config
  {
    config := Config([], {});
    var currentType := Scan;

    var i := 0;
    while i < |lines|
      invariant 0 <= i <= |lines|
      invariant ParserState(currentType, config) == Parse(lines[..i])
    {
      var line := lines[i];
      assert lines[..i + 1][..i] == lines[..i];
      i := i + 1;

      if IsComment(line) || IsBlank(line) {
        continue;
      }

      match line
      case "[SCAN]\n" | "[scan]\n" =>
        currentType := Scan;
      case "[IGNORE]\n" | "[ignore]\n" =>
        currentType := Ignore;
      case _ =>
        match currentType
        case Scan =>
          config := config.(scans := config.scans + [TrimEndNewlines(line)]);
        case Ignore =>
          config := config.(ignores := config.ignores + {TrimEndNewlines(line)});
    }
    assert lines[..i] == lines;
  }

  // ---------------------------------------------------------------------
  // A characterization without a threaded mode
  // ---------------------------------------------------------------------

  /** The mode of the last header line among `lines`, Scan when there is none. */
  function LastHeaderMode(lines: seq<string>): ActionType {
    if lines == [] then Scan
    else
      match HeaderMode(lines[|lines| - 1])
      case Some(m) => m
      case None => LastHeaderMode(lines[..|lines| - 1])
  }

  /** The entry lines met while the last header before them is a scan header, in order. */
  function ScanEntries(lines: seq<string>): seq<string> {
    if lines == [] then []
    else
      var init, line := lines[..|lines| - 1], lines[|lines| - 1];
      ScanEntries(init) + (if IsEntry(line) && LastHeaderMode(init) == Scan then [TrimEndNewlines(line)] else [])
  }

  /** The entry lines met while the last header before them is an ignore header. */
  function IgnoreEntries(lines: seq<string>): set<string> {
    set i | 0 <= i < |lines| && IsEntry(lines[i]) && LastHeaderMode(lines[..i]) == Ignore :: TrimEndNewlines(lines[i])
  }

  /**
   * The parser's mode is the mode of the last header (Scan before any), its
   * scans are the scan-mode entries in input order with duplicates, and its
   * ignores are the set of the ignore-mode entries.
   */
  lemma {:induction false} ParseCharacterized(lines: seq<string>)
    ensures Parse(lines) == ParserState(LastHeaderMode(lines), Config(ScanEntries(lines), IgnoreEntries(lines)))
  {
    if lines != [] {
      var init, line := lines[..|lines| - 1], lines[|lines| - 1];
      ParseCharacterized(init);
      IgnoreEntriesSnoc(init, line);
      if HeaderMode(line).Some? {
        HeaderIsNotSkipped(line);
      }
      assert init + [line] == lines;
    }
  }

  /** One more line adds at most its own entry to the ignore-mode entries. */
  lemma IgnoreEntriesSnoc(init: seq<string>, line: string)
    ensures IgnoreEntries(init + [line]) ==
      IgnoreEntries(init) + (if IsEntry(line) && LastHeaderMode(init) == Ignore then {TrimEndNewlines(line)} else {})
  {
    var lines := init + [line];
    assert lines[..|init|] == init;
    forall i | 0 <= i < |init|
      ensures lines[..i] == init[..i] && lines[i] == init[i]
    {
    }
  }

  /** The entry lines of `lines`, without their trailing newlines, in order. */
  function Entries(lines: seq<string>): seq<string> {
    if lines == [] then []
    else
      var init, line := lines[..|lines| - 1], lines[|lines| - 1];
      Entries(init) + (if IsEntry(line) then [TrimEndNewlines(line)] else [])
  }

  /**
   * With no header line at all the parser stays in scan mode, every entry
   * becomes a scan root in order, and nothing is ignored.
   */
  lemma {:induction false} InitialModeIsScan(lines: seq<string>)
    requires forall i :: 0 <= i < |lines| ==> HeaderMode(lines[i]).None?
    ensures Parse(lines) == ParserState(Scan, Config(Entries(lines), {}))
  {
    if lines != [] {
      var init := lines[..|lines| - 1];
      assert forall i :: 0 <= i < |init| ==> init[i] == lines[i];
      InitialModeIsScan(init);
    }
  }

  /** When every line is an entry, the entries are all the lines, each without its trailing newlines. */
  lemma {:induction false} EntriesOfEntryLines(lines: seq<string>)
    requires forall i :: 0 <= i < |lines| ==> IsEntry(lines[i])
    ensures |Entries(lines)| == |lines|
    ensures forall i :: 0 <= i < |lines| ==> Entries(lines)[i] == TrimEndNewlines(lines[i])
  {
    if lines != [] {
      var init, last := lines[..|lines| - 1], lines[|lines| - 1];
      assert forall i :: 0 <= i < |init| ==> init[i] == lines[i];
      EntriesOfEntryLines(init);
      assert IsEntry(last);
      assert Entries(lines) == Entries(init) + [TrimEndNewlines(last)];
    }
  }

  /** With no header line the last header's mode is the initial Scan. */
  lemma {:induction false} NoHeaderMeansScanMode(lines: seq<string>)
    requires forall i :: 0 <= i < |lines| ==> HeaderMode(lines[i]).None?
    ensures LastHeaderMode(lines) == Scan
  {
    InitialModeIsScan(lines);
    ParseCharacterized(lines);
  }

  /** A blank or comment line, wherever it stands, changes neither the mode nor the policy. */
  lemma {:induction false} SkippedLineIsInvisible(a: seq<string>, line: string, b: seq<string>)
    requires IsSkipped(line)
    ensures Parse(a + [line] + b) == Parse(a + b)
    decreases |b|
  {
    if b == [] {
      assert (a + [line])[..|a|] == a;
      assert a + [line] + b == a + [line];
      assert a + b == a;
    } else {
      var b' := b[..|b| - 1];
      SkippedLineIsInvisible(a, line, b');
      assert (a + [line] + b)[..|a + [line] + b| - 1] == a + [line] + b';
      assert (a + b)[..|a + b| - 1] == a + b';
    }
  }

  /** After a header, the next entry lands in the collection the header names. */
  lemma EntryAfterHeader(a: seq<string>, header: string, line: string)
    requires HeaderMode(header).Some? && IsEntry(line)
    ensures var c := Parse(a).config;
      Parse(a + [header, line]).config ==
        if HeaderMode(header) == Some(Scan) then c.(scans := c.scans + [TrimEndNewlines(line)])
        else c.(ignores := c.ignores + {TrimEndNewlines(line)})
  {
    HeaderIsNotSkipped(header);
    ParseSnoc(a, header);
    ParseSnoc(a + [header], line);
    assert a + [header] + [line] == a + [header, line];
  }

  /** The four header lines are neither blank nor comments. */
  lemma HeaderIsNotSkipped(header: string)
    requires HeaderMode(header).Some?
    ensures !IsSkipped(header)
  {
    assert TrimStart(header) == header;
  }

  /** Header-like lines that are not exactly a header are stored as entries, as read. */
  lemma NearMissHeadersAreEntries()
    ensures IsEntry("[SCAN]") && TrimEndNewlines("[SCAN]") == "[SCAN]"
    ensures IsEntry("[SCAN]\r\n") && TrimEndNewlines("[SCAN]\r\n") == "[SCAN]\r"
    ensures IsEntry("[SCAN] \n") && TrimEndNewlines("[SCAN] \n") == "[SCAN] "
    ensures IsEntry("[Scan]\n") && TrimEndNewlines("[Scan]\n") == "[Scan]"
    ensures IsEntry("  /srv\n") && TrimEndNewlines("  /srv\n") == "  /srv"
  {
  }

  /**
   * A policy with comments and blank lines: scans keep duplicates and order,
   * ignores collapse repeats, and headers never become entries.
   */
  lemma ExamplePolicy()
    ensures Parse(["# roots\n", "/etc\n", "\n", "[IGNORE]\n", "  # skip\n", "/etc/mtab\n", "/etc/mtab\n",
                   "[scan]\n", "/etc\n"])
         == ParserState(Scan, Config(["/etc", "/etc"], {"/etc/mtab"}))
  {
    var l1, l5, l7 := "/etc\n", "/etc/mtab\n", "[scan]\n";
    ExampleLines();
    var p5 := ExamplePolicyHead();
    var p6 := p5 + [l5];
    var p7 := p6 + [l5];
    var p8 := p7 + [l7];
    ParseSnoc(p5, l5);
    ParseSnoc(p6, l5);
    assert Parse(p7) == ParserState(Ignore, Config(["/etc"], {"/etc/mtab"}));
    ParseSnoc(p7, l7);
    ParseSnoc(p8, l1);
    assert p8 + [l1] == ["# roots\n", "/etc\n", "\n", "[IGNORE]\n", "  # skip\n", "/etc/mtab\n", "/etc/mtab\n",
                         "[scan]\n", "/etc\n"];
  }

  /** The first five lines of the example policy: one scan root, then ignore mode. */
  lemma ExamplePolicyHead() returns (p5: seq<string>)
    ensures p5 == ["# roots\n", "/etc\n", "\n", "[IGNORE]\n", "  # skip\n"]
    ensures Parse(p5) == ParserState(Ignore, Config(["/etc"], {}))
  {
    var l0, l1, l2, l3, l4 := "# roots\n", "/etc\n", "\n", "[IGNORE]\n", "  # skip\n";
    ExampleLines();
    var p1 := [] + [l0];
    var p2 := p1 + [l1];
    var p3 := p2 + [l2];
    var p4 := p3 + [l3];
    p5 := p4 + [l4];
    ParseSnoc([], l0);
    ParseSnoc(p1, l1);
    ParseSnoc(p2, l2);
    assert Parse(p3) == ParserState(Scan, Config(["/etc"], {}));
    ParseSnoc(p3, l3);
    ParseSnoc(p4, l4);
  }

  /** How each line of the example policy is classified. */
  lemma ExampleLines()
    ensures IsComment("# roots\n") && IsBlank("\n") && IsComment("  # skip\n")
    ensures IsEntry("/etc\n") && TrimEndNewlines("/etc\n") == "/etc"
    ensures IsEntry("/etc/mtab\n") && TrimEndNewlines("/etc/mtab\n") == "/etc/mtab"
    ensures !IsSkipped("[IGNORE]\n") && HeaderMode("[IGNORE]\n") == Some(Ignore)
    ensures !IsSkipped("[scan]\n") && HeaderMode("[scan]\n") == Some(Scan)
  {
    assert TrimStart("[IGNORE]\n") == "[IGNORE]\n" && TrimStart("[scan]\n") == "[scan]\n";
  }

  /** Parsing one more line is one more step of the loop. */
  lemma ParseSnoc(lines: seq<string>, line: string)
    ensures Parse(lines + [line]) == Step(Parse(lines), line)
  {
    assert (lines + [line])[..|lines|] == lines;
  }

  /**
   * gen_config: read the plain policy, parse it, and save the result through
   * the envelope.  `input` is None when the file cannot be opened or a
   * `read_line` fails, which includes a line that is not valid UTF-8; once
   * the lines are read, their content never causes an error.
   */
  method GenConfig(input: Option<seq<string>>, outfile: string, passphrase: seq<Byte>,
                   encode: Config -> Option<seq<Byte>>, seal: Sealer, disk: Disk)
    returns (r: Result<(), CryptoError>)
    modifies disk
    ensures input.None? ==> r == Err(IoError) && disk.files == old(disk.files)
    ensures input.Some? ==>
      var config := Parse(input.value).config;
      && r == SaveOutcome(config, outfile, passphrase, encode, seal, disk.unwritable)
      && disk.files == if r.Ok? then old(disk.files)[outfile := SealedBytes(config, passphrase, encode, seal).value]
                       else old(disk.files)
  {
    if input.None? {
      return Err(IoError);
    }
    var config := ParsePolicy(input.value);
    r := SaveEncrypted(config, outfile, passphrase, encode, seal, disk);
  }
}
