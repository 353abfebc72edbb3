/**
 * src/tripwirs.rs: the older policy parser, and the scanner that walks a
 * tree of files and directories with an explicit stack, recording the hash
 * of every regular file and a marker for every directory that has no
 * entries.
 *
 * The filesystem is a finite tree (`Node`), so a walk always ends; the
 * content hash is a parameter that may fail.
 */
module Tripwirs {
  import opened Wrappers
  import opened Crypto
  import opened Config

  // ---------------------------------------------------------------------
  // The older policy parser (gen_config of src/tripwirs.rs)
  // ---------------------------------------------------------------------

  /** The older header test: the line without a terminator must equal a header. */
  function OldHeaderMode(line: string): Option<ActionType> {
    if line == "[SCAN]" || line == "[scan]" then Some(Scan)
    else if line == "[IGNORE]" || line == "[ignore]" then Some(Ignore)
    else None
  }

  /** One pass of the older loop: no line is skipped and entries keep their terminator. */
  function OldStep(st: ParserState, line: string): ParserState {
    match OldHeaderMode(line)
    case Some(m) => st.(mode := m)
    case None =>
      match st.mode
      case Scan => st.(config := st.config.(scans := st.config.scans + [line]))
      case Ignore => st.(config := st.config.(ignores := st.config.ignores + {line}))
  }

  /** The older parser's state after consuming `lines`. */
  function OldParse(lines: seq<string>): ParserState {
    if lines == [] then INITIAL
    else OldStep(OldParse(lines[..|lines| - 1]), lines[|lines| - 1])
  }

  /** The older gen_config loop over the lines of the plain policy file. */
  method OldParsePolicy(lines: seq<string>) returns (config: Config)
    ensures config == OldParse(lines).config
  {
    config := Config([], {});
    var currentType := Scan;

    var i := 0;
    while i < |lines|
      invariant 0 <= i <= |lines|
      invariant ParserState(currentType, config) == OldParse(lines[..i])
    {
      var line := lines[i];
      assert lines[..i + 1][..i] == lines[..i];
      i := i + 1;

      match line
      case "[SCAN]" | "[scan]" =>
        currentType := Scan;
      case "[IGNORE]" | "[ignore]" =>
        currentType := Ignore;
      case _ =>
        match currentType
        case Scan =>
          config := config.(scans := config.scans + [line]);
        case Ignore =>
          config := config.(ignores := config.ignores + {line});
    }
    assert lines[..i] == lines;
  }

  /** A line as `read_line` delivers it when more input follows: newline-terminated. */
  predicate Terminated(line: string) {
    line != [] && line[|line| - 1] == '\n'
  }

  /**
   * A terminated line is never an older header, so over terminated lines
   * the older parser stays in scan mode and stores every line verbatim.
   */
  lemma {:induction false} TerminatedHeadersNeverMatch(lines: seq<string>)
    requires forall i :: 0 <= i < |lines| ==> Terminated(lines[i])
    ensures OldParse(lines) == ParserState(Scan, Config(lines, {}))
  {
    if lines != [] {
      var init := lines[..|lines| - 1];
      TerminatedHeadersNeverMatch(init);
      assert OldHeaderMode(lines[|lines| - 1]).None?;
      assert init + [lines[|lines| - 1]] == lines;
    }
  }

  /**
   * On `read_line` output (every line but the last newline-terminated) the
   * older parser recognises a header only as the unterminated last line: its
   * ignore set is always empty and every other line, newline included, is a
   * scan root.
   */
  lemma OldParseOfReadLines(init: seq<string>, last: string)
    requires forall i :: 0 <= i < |init| ==> Terminated(init[i])
    ensures var st := OldParse(init + [last]);
      && st.config.ignores == {}
      && (OldHeaderMode(last).Some? ==> st == ParserState(OldHeaderMode(last).value, Config(init, {})))
      && (OldHeaderMode(last).None? ==> st == ParserState(Scan, Config(init + [last], {})))
  {
    TerminatedHeadersNeverMatch(init);
    assert (init + [last])[..|init|] == init;
    OldStepInScanMode(init, last);
  }

  /** One older step from scan mode with no ignores. */
  lemma OldStepInScanMode(scans: seq<string>, line: string)
    ensures var st := OldStep(ParserState(Scan, Config(scans, {})), line);
      && st.config.ignores == {}
      && (OldHeaderMode(line).Some? ==> st == ParserState(OldHeaderMode(line).value, Config(scans, {})))
      && (OldHeaderMode(line).None? ==> st == ParserState(Scan, Config(scans + [line], {})))
  {
  }

  /** With no older header line the older parser scans every line verbatim, in order. */
  lemma {:induction false} OldParseWithoutHeaders(lines: seq<string>)
    requires forall i :: 0 <= i < |lines| ==> OldHeaderMode(lines[i]).None?
    ensures OldParse(lines) == ParserState(Scan, Config(lines, {}))
  {
    if lines != [] {
      var init, last := lines[..|lines| - 1], lines[|lines| - 1];
      assert forall i :: 0 <= i < |init| ==> init[i] == lines[i];
      OldParseWithoutHeaders(init);
      assert init + [last] == lines;
    }
  }

  /**
   * On any policy of entry lines (terminated or not) that neither parser
   * treats as a header, both parsers scan the same paths in the same order
   * and ignore nothing; they differ only in that the older one keeps each
   * line's trailing newlines.
   */
  lemma {:induction false} VariantsAgreeUpToNewlines(lines: seq<string>)
    requires forall i :: 0 <= i < |lines| ==> IsEntry(lines[i]) && OldHeaderMode(lines[i]).None?
    ensures OldParse(lines) == ParserState(Scan, Config(lines, {}))
    ensures Parse(lines) == ParserState(Scan, Config(Entries(lines), {}))
    ensures |Parse(lines).config.scans| == |OldParse(lines).config.scans|
    ensures forall i :: 0 <= i < |lines| ==>
      Parse(lines).config.scans[i] == TrimEndNewlines(OldParse(lines).config.scans[i])
  {
    OldParseWithoutHeaders(lines);
    InitialModeIsScan(lines);
    EntriesOfEntryLines(lines);
  }

  /**
   * The two parsers agree exactly on policies of plain entries: lines
   * without a terminator that neither parser treats as a header, comment or
   * blank, which trimming leaves unchanged.
   */
  lemma {:induction false} VariantsAgreeOnPlainEntries(lines: seq<string>)
    requires forall i :: 0 <= i < |lines| ==>
      !Terminated(lines[i]) && IsEntry(lines[i]) && OldHeaderMode(lines[i]).None?
    ensures OldParse(lines) == Parse(lines)
  {
    VariantsAgreeUpToNewlines(lines);
    assert Parse(lines).config.scans == lines;
  }

  /**
   * The same two-line policy read by both parsers: the current parser
   * ignores `/tmp`, the older one scans the header line and `/tmp\n` as
   * paths.
   */
  lemma VariantsDiffer()
    ensures Parse(["[ignore]\n", "/tmp\n"]).config == Config([], {"/tmp"})
    ensures OldParse(["[ignore]\n", "/tmp\n"]).config == Config(["[ignore]\n", "/tmp\n"], {})
  {
    var l0, l1 := "[ignore]\n", "/tmp\n";
    assert TrimStart(l0) == l0 && TrimStart(l1) == l1;
    assert TrimEndNewlines(l1) == "/tmp";
    assert [l0, l1][..1] == [l0];
  }

  // ---------------------------------------------------------------------
  // The filesystem and the database
  // ---------------------------------------------------------------------

  /** A 64-bit XXH3 digest. */
  type U64 = x: int | 0 <= x < 0x1_0000_0000_0000_0000

  /**
   * What a path names: a regular file, a directory whose entries can be
   * enumerated, or something that is neither (`read_dir` fails).
   */
  datatype Node = File(content: seq<Byte>) | Dir(children: seq<Child>) | Unreadable

  /** One item of a directory iterator: an entry, or an item that reports an error. */
  datatype Child = Entry(name: string, node: Node) | BadEntry

  /** A database value: a file's hash, or the marker of a directory with no entries. */
  datatype NodeType = F(hash: U64) | D

  /** A stack element: a path together with what it names. */
  datatype Item = Item(path: string, node: Node)

  /** The content hash of the file at a path; it may fail with an I/O error. */
  type Hasher<E> = (string, seq<Byte>) -> Result<U64, E>

  /** The database `scan_path` fills in place. */
  class Db {
    var entries: map<string, NodeType>

    constructor ()
      ensures entries == map[]
    {
      entries := map[];
    }
  }

  /** `PathBuf::push` of a relative name: a separator unless the base is empty or ends in one. */
  function Join(dir: string, name: string): (p: string)
    ensures p == dir + name || p == dir + "/" + name
    ensures |p| >= |dir| + |name| && p[..|dir|] == dir
  {
    if dir == [] || dir[|dir| - 1] == '/' then dir + name else dir + "/" + name
  }

  /** A measure of a tree: one for every node and every directory item. */
  function Size(n: Node): (s: nat)
    ensures s >= 1
    decreases n, 1
  {
    match n
    case Dir(cs) => 1 + ChildrenSize(cs)
    case _ => 1
  }

  function ChildrenSize(cs: seq<Child>): nat
    decreases cs, 0
  {
    if cs == [] then 0
    else
      ChildrenSize(cs[..|cs| - 1]) +
      match cs[|cs| - 1]
      case Entry(_, n) => Size(n)
      case BadEntry => 1
  }

  /** The measure of a stack: the sizes of the trees still to be visited. */
  function StackSize(stack: seq<Item>): nat {
    if stack == [] then 0 else StackSize(stack[..|stack| - 1]) + Size(stack[|stack| - 1].node)
  }

  /** The number of readable entries among a directory's iterator items. */
  function EntryCount(cs: seq<Child>): nat {
    if cs == [] then 0
    else EntryCount(cs[..|cs| - 1]) + (if cs[|cs| - 1].Entry? then 1 else 0)
  }

  /** The items the iterator loop pushes for a directory: one per readable entry, in order. */
  function Pushed(dir: string, cs: seq<Child>): seq<Item> {
    if cs == [] then []
    else
      Pushed(dir, cs[..|cs| - 1]) +
      match cs[|cs| - 1]
      case Entry(name, n) => [Item(Join(dir, name), n)]
      case BadEntry => []
  }

  // ---------------------------------------------------------------------
  // The walk as a stack machine
  // ---------------------------------------------------------------------

  /** The database after a walk, and the error that ended it early, if any. */
  datatype ScanOutcome<E> = ScanOutcome(db: map<string, NodeType>, err: Option<E>)

  lemma {:induction false} StackSizeAppend(a: seq<Item>, b: seq<Item>)
    ensures StackSize(a + b) == StackSize(a) + StackSize(b)
    decreases |b|
  {
    if b != [] {
      assert (a + b)[..|a + b| - 1] == a + b[..|b| - 1];
      StackSizeAppend(a, b[..|b| - 1]);
    } else {
      assert a + b == a;
    }
  }

  lemma {:induction false} PushedSize(dir: string, cs: seq<Child>)
    ensures StackSize(Pushed(dir, cs)) <= ChildrenSize(cs)
  {
    if cs != [] {
      PushedSize(dir, cs[..|cs| - 1]);
      var last := cs[|cs| - 1];
      var extra := match last case Entry(name, n) => [Item(Join(dir, name), n)] case BadEntry => [];
      StackSizeAppend(Pushed(dir, cs[..|cs| - 1]), extra);
      if last.Entry? {
        assert StackSize(extra) == Size(last.node) by {
          assert extra[..0] == [];
        }
      }
    }
  }

  /**
   * The loop of scan_path run to its end from `stack` and `db`: pop the last
   * item; hash a file (an error ends the walk) and record it; push a
   * directory's readable entries and record it when the iterator yields
   * nothing; skip anything else.
   */
  function VisitAll<E>(stack: seq<Item>, db: map<string, NodeType>, hash: Hasher<E>): ScanOutcome<E>
    decreases StackSize(stack)
  {
    if stack == [] then ScanOutcome(db, None)
    else
      var rest, e := stack[..|stack| - 1], stack[|stack| - 1];
      match e.node
      case File(c) =>
        (match hash(e.path, c)
         case Err(err) => ScanOutcome(db, Some(err))
         case Ok(h) => VisitAll(rest, db[e.path := F(h)], hash))
      case Dir(cs) =>
        StackSizeAppend(rest, Pushed(e.path, cs));
        PushedSize(e.path, cs);
        VisitAll(rest + Pushed(e.path, cs), if |cs| == 0 then db[e.path := D] else db, hash)
      case Unreadable => VisitAll(rest, db, hash)
  }

  // ---------------------------------------------------------------------
  // The walk as a recursive traversal of the tree
  // ---------------------------------------------------------------------

  /**
   * A depth-first traversal of the tree at `p` in the order the stack
   * produces: a directory first, then its entries from the last to the
   * first, each one completely; the first hash error ends it.
   */
  function Visit<E>(p: string, n: Node, db: map<string, NodeType>, hash: Hasher<E>): ScanOutcome<E>
    decreases Size(n), 0
  {
    match n
    case File(c) =>
      (match hash(p, c)
       case Err(err) => ScanOutcome(db, Some(err))
       case Ok(h) => ScanOutcome(db[p := F(h)], None))
    case Dir(cs) => VisitChildren(p, cs, if |cs| == 0 then db[p := D] else db, hash)
    case Unreadable => ScanOutcome(db, None)
  }

  /** The entries of the directory at `p`, from the last to the first. */
  function VisitChildren<E>(p: string, cs: seq<Child>, db: map<string, NodeType>, hash: Hasher<E>): ScanOutcome<E>
    decreases ChildrenSize(cs), 1
  {
    if cs == [] then ScanOutcome(db, None)
    else
      match cs[|cs| - 1]
      case BadEntry => VisitChildren(p, cs[..|cs| - 1], db, hash)
      case Entry(name, n) =>
        var o := Visit(Join(p, name), n, db, hash);
        if o.err.Some? then o else VisitChildren(p, cs[..|cs| - 1], o.db, hash)
  }

  /** Continue with `stack` after an outcome, unless that outcome is an error. */
  function Then<E>(o: ScanOutcome<E>, stack: seq<Item>, hash: Hasher<E>): ScanOutcome<E> {
    if o.err.Some? then o else VisitAll(stack, o.db, hash)
  }

  /** Pushing a tree and running the stack machine is visiting the tree, then the rest. */
  lemma {:induction false} VisitAllPush<E>(stack: seq<Item>, p: string, n: Node, db: map<string, NodeType>, hash: Hasher<E>)
    ensures VisitAll(stack + [Item(p, n)], db, hash) == Then(Visit(p, n, db, hash), stack, hash)
    decreases Size(n), 0
  {
    var s := stack + [Item(p, n)];
    assert s[..|s| - 1] == stack;
    match n
    case File(_) =>
    case Unreadable =>
    case Dir(cs) =>
      VisitAllPushChildren(stack, p, cs, if |cs| == 0 then db[p := D] else db, hash);
  }

  lemma {:induction false} VisitAllPushChildren<E>(stack: seq<Item>, p: string, cs: seq<Child>, db: map<string, NodeType>, hash: Hasher<E>)
    ensures VisitAll(stack + Pushed(p, cs), db, hash) == Then(VisitChildren(p, cs, db, hash), stack, hash)
    decreases ChildrenSize(cs), 1
  {
    if cs == [] {
      assert stack + Pushed(p, cs) == stack;
    } else {
      var init := cs[..|cs| - 1];
      match cs[|cs| - 1]
      case BadEntry =>
        assert Pushed(p, cs) == Pushed(p, init);
        VisitAllPushChildren(stack, p, init, db, hash);
      case Entry(name, n) =>
        assert stack + Pushed(p, cs) == (stack + Pushed(p, init)) + [Item(Join(p, name), n)];
        VisitAllPush(stack + Pushed(p, init), Join(p, name), n, db, hash);
        var o := Visit(Join(p, name), n, db, hash);
        if o.err.None? {
          VisitAllPushChildren(stack, p, init, o.db, hash);
        }
    }
  }

  /** Starting from the root alone, the stack machine is the recursive traversal. */
  lemma VisitAllOfRoot<E>(p: string, n: Node, db: map<string, NodeType>, hash: Hasher<E>)
    ensures VisitAll([Item(p, n)], db, hash) == Visit(p, n, db, hash)
  {
    VisitAllPush([], p, n, db, hash);
    assert [] + [Item(p, n)] == [Item(p, n)];
  }

  // ---------------------------------------------------------------------
  // What a walk records
  // ---------------------------------------------------------------------

  /** Every item a walk from `p` can pop: the root and everything under its readable entries. */
  function Reachable(p: string, n: Node): set<Item>
    decreases Size(n), 0
  {
    {Item(p, n)} + match n case Dir(cs) => ReachableChildren(p, cs) case _ => {}
  }

  function ReachableChildren(p: string, cs: seq<Child>): set<Item>
    decreases ChildrenSize(cs), 1
  {
    if cs == [] then {}
    else
      match cs[|cs| - 1]
      case Entry(name, n) => ReachableChildren(p, cs[..|cs| - 1]) + Reachable(Join(p, name), n)
      case BadEntry => ReachableChildren(p, cs[..|cs| - 1])
  }

  /**
   * The database write popping `it` makes: the hash of a file that hashes,
   * D for a directory whose iterator yields no item, nothing otherwise.
   */
  function Record<E>(it: Item, hash: Hasher<E>): Option<NodeType> {
    match it.node
    case File(c) => if hash(it.path, c).Ok? then Some(F(hash(it.path, c).value)) else None
    case Dir(cs) => if |cs| == 0 then Some(D) else None
    case Unreadable => None
  }

  /** A file whose hashing fails. */
  predicate Fails<E>(it: Item, hash: Hasher<E>) {
    it.node.File? && hash(it.path, it.node.content).Err?
  }

  /** Some item of `items` writes `v` at path `k`. */
  ghost predicate Written<E>(k: string, v: NodeType, items: set<Item>, hash: Hasher<E>) {
    exists it :: it in items && it.path == k && Record(it, hash) == Some(v)
  }

  /** A walk fails exactly when some reachable file fails to hash. */
  lemma {:induction false} VisitFailsIffHashFails<E>(p: string, n: Node, db: map<string, NodeType>, hash: Hasher<E>)
    ensures Visit(p, n, db, hash).err.Some? <==> exists it :: it in Reachable(p, n) && Fails(it, hash)
    decreases Size(n), 0
  {
    match n
    case File(c) =>
      var it := Item(p, n);
      assert Reachable(p, n) == {it};
      assert Visit(p, n, db, hash).err.Some? <==> Fails(it, hash);
    case Unreadable =>
    case Dir(cs) =>
      VisitChildrenFailsIffHashFails(p, cs, if |cs| == 0 then db[p := D] else db, hash);
  }

  lemma {:induction false} VisitChildrenFailsIffHashFails<E>(p: string, cs: seq<Child>, db: map<string, NodeType>, hash: Hasher<E>)
    ensures VisitChildren(p, cs, db, hash).err.Some? <==> exists it :: it in ReachableChildren(p, cs) && Fails(it, hash)
    decreases ChildrenSize(cs), 1
  {
    if cs != [] {
      var init := cs[..|cs| - 1];
      match cs[|cs| - 1]
      case BadEntry =>
        VisitChildrenFailsIffHashFails(p, init, db, hash);
      case Entry(name, n) =>
        VisitFailsIffHashFails(Join(p, name), n, db, hash);
        var o := Visit(Join(p, name), n, db, hash);
        if o.err.None? {
          VisitChildrenFailsIffHashFails(p, init, o.db, hash);
        }
    }
  }

  /** The error a failed walk returns is the hash error of a reachable file. */
  lemma {:induction false} VisitErrorIsAHashError<E>(p: string, n: Node, db: map<string, NodeType>, hash: Hasher<E>)
    ensures var o := Visit(p, n, db, hash);
      o.err.Some? ==> exists it :: it in Reachable(p, n) && Fails(it, hash) && hash(it.path, it.node.content).error == o.err.value
    decreases Size(n), 0
  {
    match n
    case File(c) =>
      assert Item(p, n) in Reachable(p, n);
    case Unreadable =>
    case Dir(cs) =>
      VisitChildrenErrorIsAHashError(p, cs, if |cs| == 0 then db[p := D] else db, hash);
  }

  lemma {:induction false} VisitChildrenErrorIsAHashError<E>(p: string, cs: seq<Child>, db: map<string, NodeType>, hash: Hasher<E>)
    ensures var o := VisitChildren(p, cs, db, hash);
      o.err.Some? ==> exists it :: it in ReachableChildren(p, cs) && Fails(it, hash) && hash(it.path, it.node.content).error == o.err.value
    decreases ChildrenSize(cs), 1
  {
    if cs != [] {
      var init := cs[..|cs| - 1];
      match cs[|cs| - 1]
      case BadEntry =>
        VisitChildrenErrorIsAHashError(p, init, db, hash);
      case Entry(name, n) =>
        VisitErrorIsAHashError(Join(p, name), n, db, hash);
        var o := Visit(Join(p, name), n, db, hash);
        if o.err.None? {
          VisitChildrenErrorIsAHashError(p, init, o.db, hash);
        }
    }
  }

  /**
   * A walk removes nothing from the database, and every value it leaves is
   * either the one the database held before or one a reachable item writes.
   */
  lemma {:induction false} VisitSound<E>(p: string, n: Node, db: map<string, NodeType>, hash: Hasher<E>)
    ensures var o := Visit(p, n, db, hash);
      && (forall k :: k in db ==> k in o.db)
      && (forall k :: k in o.db ==> (k in db && o.db[k] == db[k]) || Written(k, o.db[k], Reachable(p, n), hash))
    decreases Size(n), 0
  {
    match n
    case File(c) =>
      if hash(p, c).Ok? {
        assert Record(Item(p, n), hash) == Some(F(hash(p, c).value));
      }
    case Unreadable =>
    case Dir(cs) =>
      var db' := if |cs| == 0 then db[p := D] else db;
      VisitChildrenSound(p, cs, db', hash);
      if |cs| == 0 {
        assert Record(Item(p, n), hash) == Some(D);
      }
  }

  lemma {:induction false} VisitChildrenSound<E>(p: string, cs: seq<Child>, db: map<string, NodeType>, hash: Hasher<E>)
    ensures var o := VisitChildren(p, cs, db, hash);
      && (forall k :: k in db ==> k in o.db)
      && (forall k :: k in o.db ==> (k in db && o.db[k] == db[k]) || Written(k, o.db[k], ReachableChildren(p, cs), hash))
    decreases ChildrenSize(cs), 1
  {
    if cs != [] {
      var init := cs[..|cs| - 1];
      match cs[|cs| - 1]
      case BadEntry =>
        VisitChildrenSound(p, init, db, hash);
      case Entry(name, n) =>
        VisitSound(Join(p, name), n, db, hash);
        var o := Visit(Join(p, name), n, db, hash);
        if o.err.None? {
          VisitChildrenSound(p, init, o.db, hash);
        }
    }
  }

  /**
   * A walk that ends without error leaves an entry at every path a
   * reachable item writes, holding a value some reachable item writes there
   * (the last write to a path wins).
   */
  lemma {:induction false} VisitComplete<E>(p: string, n: Node, db: map<string, NodeType>, hash: Hasher<E>)
    requires Visit(p, n, db, hash).err.None?
    ensures var o := Visit(p, n, db, hash);
      forall it :: it in Reachable(p, n) && Record(it, hash).Some? ==>
        it.path in o.db && Written(it.path, o.db[it.path], Reachable(p, n), hash)
    decreases Size(n), 0
  {
    match n
    case File(c) =>
    case Unreadable =>
    case Dir(cs) =>
      var db' := if |cs| == 0 then db[p := D] else db;
      VisitChildrenComplete(p, cs, db', hash);
      VisitChildrenSound(p, cs, db', hash);
  }

  lemma {:induction false} VisitChildrenComplete<E>(p: string, cs: seq<Child>, db: map<string, NodeType>, hash: Hasher<E>)
    requires VisitChildren(p, cs, db, hash).err.None?
    ensures var o := VisitChildren(p, cs, db, hash);
      forall it :: it in ReachableChildren(p, cs) && Record(it, hash).Some? ==>
        it.path in o.db && Written(it.path, o.db[it.path], ReachableChildren(p, cs), hash)
    decreases ChildrenSize(cs), 1
  {
    if cs != [] {
      var init := cs[..|cs| - 1];
      match cs[|cs| - 1]
      case BadEntry =>
        VisitChildrenComplete(p, init, db, hash);
      case Entry(name, n) =>
        var o := Visit(Join(p, name), n, db, hash);
        VisitComplete(Join(p, name), n, db, hash);
        VisitChildrenComplete(p, init, o.db, hash);
        VisitChildrenSound(p, init, o.db, hash);
    }
  }

  /** A directory whose iterator yields only errors records nothing and fails nothing. */
  lemma {:induction false} OnlyBadEntriesRecordNothing<E>(p: string, cs: seq<Child>, db: map<string, NodeType>, hash: Hasher<E>)
    requires forall i :: 0 <= i < |cs| ==> cs[i].BadEntry?
    ensures VisitChildren(p, cs, db, hash) == ScanOutcome(db, None)
    ensures cs != [] ==> Visit(p, Dir(cs), db, hash) == ScanOutcome(db, None)
  {
    if cs != [] {
      OnlyBadEntriesRecordNothing(p, cs[..|cs| - 1], db, hash);
    }
  }

  /** Every readable entry is pushed, in order, and nothing else is. */
  lemma {:induction false} PushedIsReadableEntries(dir: string, cs: seq<Child>)
    ensures |Pushed(dir, cs)| == EntryCount(cs) <= |cs|
    ensures forall i :: 0 <= i < |cs| && cs[i].Entry? ==> Item(Join(dir, cs[i].name), cs[i].node) in Pushed(dir, cs)
    ensures forall it :: it in Pushed(dir, cs) ==>
      exists i :: 0 <= i < |cs| && cs[i].Entry? && it == Item(Join(dir, cs[i].name), cs[i].node)
  {
    if cs != [] {
      var init := cs[..|cs| - 1];
      PushedIsReadableEntries(dir, init);
      forall it | it in Pushed(dir, cs)
        ensures exists i :: 0 <= i < |cs| && cs[i].Entry? && it == Item(Join(dir, cs[i].name), cs[i].node)
      {
        if it in Pushed(dir, init) {
          var i :| 0 <= i < |init| && init[i].Entry? && it == Item(Join(dir, init[i].name), init[i].node);
          assert cs[i] == init[i];
        } else {
          assert cs[|cs| - 1].Entry? && it == Item(Join(dir, cs[|cs| - 1].name), cs[|cs| - 1].node);
        }
      }
      forall i | 0 <= i < |cs| && cs[i].Entry?
        ensures Item(Join(dir, cs[i].name), cs[i].node) in Pushed(dir, cs)
      {
        if i < |init| {
          assert cs[i] == init[i];
        }
      }
    }
  }

  // ---------------------------------------------------------------------
  // scan_path and gen_db
  // ---------------------------------------------------------------------

  /**
   * The iterator loop of scan_path: push every readable entry onto the
   * stack and count every item, erroring ones included.
   */
  method PushChildren(stack: seq<Item>, dir: string, cs: seq<Child>) returns (s: seq<Item>, nElems: nat)
    ensures s == stack + Pushed(dir, cs)
    ensures nElems == |cs|
  {
    s, nElems := stack, 0;
    for i := 0 to |cs|
      invariant s == stack + Pushed(dir, cs[..i])
      invariant nElems == i
    {
      assert cs[..i + 1][..i] == cs[..i];
      nElems := nElems + 1;
      match cs[i]
      case Entry(name, node) =>
        s := s + [Item(Join(dir, name), node)];
      case BadEntry =>
    }
    assert cs[..|cs|] == cs;
  }

  /**
   * scan_path: a depth-first walk from `rootPath` over an explicit stack.
   * Files are hashed and recorded, a hash error ends the walk with that
   * error, directories push their readable entries and are recorded only
   * when their iterator yields nothing, anything unreadable is skipped.
   * The policy is not consulted.
   */
  method ScanPath<E>(config: Config, rootPath: string, root: Node, hash: Hasher<E>, db: Db)
    returns (r: Result<(), E>)
    modifies db
    ensures var o := Visit(rootPath, root, old(db.entries), hash);
      && db.entries == o.db
      && r == (match o.err case Some(e) => Err(e) case None => Ok(()))
  {
    var pathstack := [Item(rootPath, root)];
    VisitAllOfRoot(rootPath, root, db.entries, hash);

    while |pathstack| != 0
      invariant VisitAll(pathstack, db.entries, hash) == Visit(rootPath, root, old(db.entries), hash)
      decreases StackSize(pathstack)
    {
      var e := pathstack[|pathstack| - 1];
      pathstack := pathstack[..|pathstack| - 1];

      match e.node
      case File(c) =>
        var h := hash(e.path, c);
        if h.Err? {
          return Err(h.error);
        }
        db.entries := db.entries[e.path := F(h.value)];
      case Unreadable =>
      case Dir(cs) =>
        var nElems;
        StackSizeAppend(pathstack, Pushed(e.path, cs));
        PushedSize(e.path, cs);
        pathstack, nElems := PushChildren(pathstack, e.path, cs);
        if nElems == 0 {
          db.entries := db.entries[e.path := D];
        }
    }
    return Ok(());
  }

  /**
   * gen_db as it stands: it walks the scan roots without doing anything,
   * so it succeeds and its database stays empty.
   */
  method GenDb<E>(config: Config, outfile: string) returns (r: Result<(), E>, db: map<string, NodeType>)
    ensures r == Ok(()) && db == map[]
  {
    db := map[];
    for i := 0 to |config.scans| {
    }
    r := Ok(());
  }
}
