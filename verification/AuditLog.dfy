/** The transparency log: a hash chain of entries in an append-only file, with a Merkle tree
  * over the entry hashes.
  *
  * The hashes and the record encoding (plain JSON, or JSON sealed under the at-rest key) are
  * parameters. A file is a list of lines, of which the last may lack its newline.
  */
module AuditLog {
  import opened Wrappers
  import opened MerkleTrees
  import opened MerkleTurns
  import opened Merkle
  import opened Trimming
  import opened AuditHashing
  import SearchText

  datatype LogEntry = LogEntry(num: U64, timestamp: U64, prevHash: Hash, event: AuditEvent, entryHash: Hash)

  datatype LoadError = BadRecord | SequenceGap | BrokenChain | HashMismatch

  /** sealed says that records are sealed under the at-rest key. */
  datatype Env = Env(
    hs: Hashes, sealed: bool, encode: (nat, LogEntry) -> string, decode: (nat, string) -> Option<LogEntry>)

  /** A line the loader skips. */
  predicate Blank(line: string)
  {
    forall c :: c in line ==> IsSpace(c)
  }

  /** White space that is passed over in front of a record: a sealed line is trimmed, and JSON has
    * four white-space characters. */
  predicate Passed(env: Env, space: string)
  {
    Blank(space) && (env.sealed || forall c :: c in space ==> c in {' ', '\t', '\n', '\r'})
  }

  /** What the record encoding promises: a record reads back at its own line number, ... */
  ghost predicate FaithfulRecord(env: Env, i: nat, e: LogEntry)
  {
    env.decode(i, env.encode(i, e)) == Some(e) && !Blank(env.encode(i, e))
  }

  /** ... at another one it is refused or read as it is, never as something else, ... */
  ghost predicate FaithfulElsewhere(env: Env, i: nat, j: nat, e: LogEntry)
  {
    env.decode(i, env.encode(j, e)) in {None, Some(e)}
  }

  /** ... in front of it only certain white space is passed over, ... */
  ghost predicate FaithfulIndented(env: Env, space: string, i: nat, j: nat, e: LogEntry)
  {
    Blank(space) ==>
      env.decode(i, space + env.encode(j, e)) == if Passed(env, space) then env.decode(i, env.encode(j, e)) else None
  }

  /** ... a line that reads as a record does not with another record behind it, ... */
  ghost predicate FaithfulJoined(env: Env, line: string, i: nat, j: nat, e: LogEntry)
  {
    env.decode(i, line).Some? ==> env.decode(i, line + env.encode(j, e)) == None
  }

  /** ... and the beginning of a record is not read as one, on a line of its own or behind another. */
  ghost predicate FaithfulCut(env: Env, line: string, i: nat, j: nat, e: LogEntry, k: nat)
  {
    0 < k < |env.encode(j, e)| && (Blank(line) || env.decode(i, line).Some?) ==>
      env.decode(i, line + env.encode(j, e)[..k]) == None && !Blank(line + env.encode(j, e)[..k])
  }

  ghost predicate Faithful(env: Env)
  {
    (forall i, e :: FaithfulRecord(env, i, e)) && (forall i, j, e :: FaithfulElsewhere(env, i, j, e)) &&
    (forall space, i, j, e :: FaithfulIndented(env, space, i, j, e)) &&
    (forall line, i, j, e :: FaithfulJoined(env, line, i, j, e)) &&
    (forall line, i, j, e, k :: FaithfulCut(env, line, i, j, e, k))
  }

  datatype Checkpoint = Checkpoint(logId: Bytes, treeSize: U64, root: Hash, timestamp: U64, signature: Bytes)

  function Input(e: LogEntry): EntryInput
  {
    EntryInput(e.num, e.timestamp, e.prevHash, e.event)
  }

  function Leaves(env: Env, entries: seq<LogEntry>): (r: seq<Hash>)
    ensures |r| == |entries|
  {
    if entries == [] then []
    else Leaves(env, entries[..|entries| - 1]) + [env.hs.leaf(entries[|entries| - 1].entryHash)]
  }

  lemma {:induction false} LeavesAt(env: Env, entries: seq<LogEntry>, i: nat)
    requires i < |entries|
    ensures Leaves(env, entries)[i] == env.hs.leaf(entries[i].entryHash)
  {
    if i == |entries| - 1 {
    } else {
      LeavesAt(env, entries[..|entries| - 1], i);
    }
  }

  lemma {:induction false} LeavesPrefix(env: Env, entries: seq<LogEntry>, m: nat)
    requires m <= |entries|
    ensures Leaves(env, entries[..m]) == Leaves(env, entries)[..m]
  {
    if m < |entries| {
      var front := entries[..|entries| - 1];
      LeavesPrefix(env, front, m);
      assert front[..m] == entries[..m];
    } else {
      assert entries[..m] == entries;
    }
  }

  // ---------------------------------------------------------------------------------
  // Files
  // ---------------------------------------------------------------------------------

  /** The lines of a file, and whether the last one ends in a newline. */
  datatype File = File(lines: seq<string>, ended: bool)

  /** Write text at the end of the file: on a line of its own, or behind a last line that has no
    * newline. */
  function Write(file: File, text: string, ended: bool): File
  {
    if file.ended || file.lines == [] then File(file.lines + [text], ended)
    else
      var n := |file.lines| - 1;
      File(file.lines[..n] + [file.lines[n] + text], ended)
  }

  /** The file with the given contents, as its lines are read. */
  function FileOf(text: string): File
  {
    File(SearchText.Lines(text, 0), Ends(text))
  }

  predicate Ends(text: string)
  {
    text == "" || text[|text| - 1] == '\n'
  }

  predicate OneLine(record: string)
  {
    record != "" && '\n' !in record && record[|record| - 1] != '\r'
  }

  lemma {:induction false} EndOfLineStays(text: string, all: string, a: nat)
    requires a <= |text| && text <= all
    ensures var e := SearchText.EndOfLine(text, a);
      SearchText.EndOfLine(all, a) == if e < |text| then e else SearchText.EndOfLine(all, |text|)
    ensures SearchText.EndOfLine(text, a) == |text| && a < |text| ==> !Ends(text)
    decreases |text| - a
  {
    if a == |text| || text[a] == '\n' {
    } else {
      EndOfLineStays(text, all, a + 1);
    }
  }

  lemma {:induction false} EndOfRecord(text: string, record: string, newline: string, a: nat)
    requires '\n' !in record && newline in {"", "\n"} && |text| <= a <= |text| + |record|
    ensures SearchText.EndOfLine(text + record + newline, a) == |text| + |record|
    decreases |text| + |record| - a
  {
    if a == |text| + |record| {
    } else {
      assert (text + record + newline)[a] == record[a - |text|];
      EndOfRecord(text, record, newline, a + 1);
    }
  }

  /** A line that has its newline stays as it is, ... */
  lemma FirstLineStays(text: string, all: string, a: nat, e: nat)
    requires a <= e < |text| && e == SearchText.EndOfLine(text, a) && text <= all
    ensures SearchText.Lines(all, a) ==
      [text[a..SearchText.WithoutReturn(text, a, e)]] + SearchText.Lines(all, e + 1)
  {
    EndOfLineStays(text, all, a);
    assert all[a..SearchText.WithoutReturn(all, a, e)] == text[a..SearchText.WithoutReturn(text, a, e)];
  }

  /** ... and the record comes behind one that has not. */
  lemma LastLineGrows(text: string, record: string, newline: string, a: nat)
    requires OneLine(record) && newline in {"", "\n"} && a <= |text| == SearchText.EndOfLine(text, a)
    ensures SearchText.Lines(text + record + newline, a) == [text[a..] + record]
  {
    var all, end := text + record + newline, |text| + |record|;
    EndOfRecord(text, record, newline, |text|);
    EndOfLineStays(text, all, a);
    assert all[end - 1] == record[|record| - 1];
    assert all[a..end] == text[a..] + record;
  }

  lemma LastLine(text: string, a: nat)
    requires a <= |text| == SearchText.EndOfLine(text, a)
    ensures SearchText.Lines(text, a) == if a == |text| then [] else [text[a..]]
    ensures a < |text| ==> !Ends(text)
  {
    EndOfLineStays(text, text, a);
    assert SearchText.Lines(text, |text|) == [] && text[a..|text|] == text[a..];
  }

  lemma WriteAfterFirst(first: string, lines: seq<string>, ended: bool, text: string, newline: bool)
    requires ended || lines != []
    ensures Write(File([first] + lines, ended), text, newline).lines ==
      [first] + Write(File(lines, ended), text, newline).lines
  {
    if !ended {
      assert ([first] + lines)[..|lines|] == [first] + lines[..|lines| - 1];
    }
  }

  lemma WriteAtLastLine(text: string, record: string, newline: string, a: nat)
    requires OneLine(record) && newline in {"", "\n"} && a <= |text| == SearchText.EndOfLine(text, a)
    ensures SearchText.Lines(text + record + newline, a) ==
      Write(File(SearchText.Lines(text, a), Ends(text)), record, newline != "").lines
  {
    LastLineGrows(text, record, newline, a);
    LastLine(text, a);
    assert a == |text| ==> text[a..] + record == record;
  }

  lemma SomeLine(text: string, a: nat)
    requires a < |text|
    ensures SearchText.Lines(text, a) != []
  {
  }

  lemma WriteAfterLine(text: string, all: string, record: string, newline: bool, a: nat, e: nat)
    requires a <= e < |text| && e == SearchText.EndOfLine(text, a) && text <= all
    requires SearchText.Lines(all, e + 1) ==
      Write(File(SearchText.Lines(text, e + 1), Ends(text)), record, newline).lines
    ensures SearchText.Lines(all, a) == Write(File(SearchText.Lines(text, a), Ends(text)), record, newline).lines
  {
    FirstLineStays(text, all, a, e);
    FirstLineStays(text, text, a, e);
    if e + 1 < |text| { SomeLine(text, e + 1); }
    WriteAfterFirst(
      text[a..SearchText.WithoutReturn(text, a, e)], SearchText.Lines(text, e + 1), Ends(text), record, newline);
  }

  lemma {:induction false} LinesOfWritten(text: string, record: string, newline: string, a: nat)
    requires OneLine(record) && newline in {"", "\n"} && a <= |text|
    ensures SearchText.Lines(text + record + newline, a) ==
      Write(File(SearchText.Lines(text, a), Ends(text)), record, newline != "").lines
    decreases |text| - a
  {
    var e := SearchText.EndOfLine(text, a);
    if e == |text| {
      WriteAtLastLine(text, record, newline, a);
    } else {
      LinesOfWritten(text, record, newline, e + 1);
      WriteAfterLine(text, text + record + newline, record, newline != "", a, e);
    }
  }

  /** Writing at the end of the file is appending to its contents. */
  lemma WriteIsAppend(text: string, record: string, ended: bool)
    requires OneLine(record)
    ensures FileOf(text + record + (if ended then "\n" else "")) == Write(FileOf(text), record, ended)
  {
    LinesOfWritten(text, record, if ended then "\n" else "", 0);
  }

  // ---------------------------------------------------------------------------------
  // Loading
  // ---------------------------------------------------------------------------------

  /** The checks the loader makes on the record of line i. */
  function CheckRecord(env: Env, i: nat, line: string, prev: Hash): Result<LogEntry, LoadError>
  {
    match env.decode(i, line)
    case None => Err(BadRecord)
    case Some(e) =>
      if e.num != i then Err(SequenceGap)
      else if e.prevHash != prev then Err(BrokenChain)
      else if env.hs.entry(Input(e)) != e.entryHash then Err(HashMismatch)
      else Ok(e)
  }

  /** The hash that entry i has to commit to. */
  function HashBefore(env: Env, entries: seq<LogEntry>, i: nat): Hash
    requires i <= |entries|
  {
    if i == 0 then env.hs.genesis else entries[i - 1].entryHash
  }

  function LastHash(env: Env, entries: seq<LogEntry>): Hash
  {
    HashBefore(env, entries, |entries|)
  }

  /** The entries of the first n lines of a file. */
  function LoadLines(env: Env, lines: seq<string>, n: nat): Result<seq<LogEntry>, LoadError>
    requires n <= |lines|
  {
    if n == 0 then Ok([])
    else
      match LoadLines(env, lines, n - 1)
      case Err(x) => Err(x)
      case Ok(es) => LoadLine(env, es, n - 1, lines[n - 1])
  }

  function LoadLine(env: Env, es: seq<LogEntry>, i: nat, line: string): Result<seq<LogEntry>, LoadError>
  {
    if Blank(line) then Ok(es)
    else
      match CheckRecord(env, i, line, LastHash(env, es))
      case Err(x) => Err(x)
      case Ok(e) => Ok(es + [e])
  }

  function LoadFile(env: Env, file: File): Result<seq<LogEntry>, LoadError>
  {
    LoadLines(env, file.lines, |file.lines|)
  }

  ghost predicate Linked(env: Env, entries: seq<LogEntry>, i: nat)
    requires i < |entries|
  {
    entries[i].prevHash == HashBefore(env, entries, i) && entries[i].entryHash == env.hs.entry(Input(entries[i]))
  }

  /** Each entry commits to the one before it. */
  ghost predicate Chained(env: Env, entries: seq<LogEntry>)
  {
    forall i :: 0 <= i < |entries| ==> Linked(env, entries, i)
  }

  lemma ChainedByOne(env: Env, es: seq<LogEntry>, e: LogEntry)
    requires Chained(env, es) && e.prevHash == LastHash(env, es) && e.entryHash == env.hs.entry(Input(e))
    ensures Chained(env, es + [e])
  {
    forall i | 0 <= i < |es| + 1 ensures Linked(env, es + [e], i) {
      if i < |es| { assert Linked(env, es, i); }
    }
  }

  lemma {:induction false} LoadedIsChained(env: Env, lines: seq<string>, n: nat)
    requires n <= |lines| && LoadLines(env, lines, n).Ok?
    ensures Chained(env, LoadLines(env, lines, n).value) && |LoadLines(env, lines, n).value| <= n
    decreases n
  {
    if n == 0 {
    } else {
      LoadedIsChained(env, lines, n - 1);
      var es := LoadLines(env, lines, n - 1).value;
      if !Blank(lines[n - 1]) {
        ChainedByOne(env, es, CheckRecord(env, n - 1, lines[n - 1], LastHash(env, es)).value);
      }
    }
  }

  /** The entries are the records of the lines at the given places, which are all the lines before
    * the n-th that are not blank; each carries the number of its line, and they are chained. */
  ghost predicate Reads(env: Env, lines: seq<string>, n: nat, at: seq<nat>, es: seq<LogEntry>)
    requires n <= |lines|
  {
    |at| == |es| && (forall k :: 0 <= k < |at| ==> at[k] < n && ReadsOne(env, lines[at[k]], at[k], es[k])) &&
    (forall j, k :: 0 <= j < k < |at| ==> at[j] < at[k]) &&
    (forall i :: 0 <= i < n && !Blank(lines[i]) ==> i in at) && Chained(env, es)
  }

  predicate ReadsOne(env: Env, line: string, i: nat, e: LogEntry)
  {
    !Blank(line) && env.decode(i, line) == Some(e) && e.num == i
  }

  lemma {:induction false} LoadReads(env: Env, lines: seq<string>, n: nat) returns (at: seq<nat>)
    requires n <= |lines| && LoadLines(env, lines, n).Ok?
    ensures Reads(env, lines, n, at, LoadLines(env, lines, n).value)
  {
    if n == 0 {
      at := [];
    } else {
      at := LoadReads(env, lines, n - 1);
      var es := LoadLines(env, lines, n - 1).value;
      if !Blank(lines[n - 1]) {
        var e := LoadLines(env, lines, n).value[|es|];
        ChainedByOne(env, es, e);
        at := at + [n - 1];
      }
    }
  }

  lemma {:induction false} ReadsLoad(env: Env, lines: seq<string>, n: nat, at: seq<nat>, es: seq<LogEntry>)
    requires n <= |lines| && Reads(env, lines, n, at, es)
    ensures LoadLines(env, lines, n) == Ok(es)
  {
    if n == 0 {
      NothingIsRead(env, lines, at, es);
    } else if Blank(lines[n - 1]) {
      BlankIsNotRead(env, lines, n, at, es);
      ReadsLoad(env, lines, n - 1, at, es);
    } else {
      var front := LastIsRead(env, lines, n, at, es);
      ReadsLoad(env, lines, n - 1, at[..|at| - 1], front);
      LoadsLast(env, lines, n, front, es);
    }
  }

  /** es is front and the record of line i, which goes on with the chain. */
  ghost predicate EndsIn(env: Env, line: string, i: nat, front: seq<LogEntry>, es: seq<LogEntry>)
  {
    |es| == |front| + 1 && es == front + [es[|front|]] && ReadsOne(env, line, i, es[|front|]) &&
    Linked(env, es, |front|)
  }

  lemma SomePlace(at: seq<nat>, n: nat)
    requires at != [] && forall k :: 0 <= k < |at| ==> at[k] < n
    ensures n > 0
  {
    assert at[0] < n;
  }

  lemma NothingIsRead(env: Env, lines: seq<string>, at: seq<nat>, es: seq<LogEntry>)
    requires Reads(env, lines, 0, at, es)
    ensures es == []
  {
    if at != [] { SomePlace(at, 0); }
  }

  lemma BlankIsNotRead(env: Env, lines: seq<string>, n: nat, at: seq<nat>, es: seq<LogEntry>)
    requires 0 < n <= |lines| && Reads(env, lines, n, at, es) && Blank(lines[n - 1])
    ensures Reads(env, lines, n - 1, at, es)
  {
    forall k | 0 <= k < |at| ensures at[k] < n - 1 && ReadsOne(env, lines[at[k]], at[k], es[k]) {
      assert ReadsOne(env, lines[at[k]], at[k], es[k]);
    }
  }

  lemma LoadsLast(env: Env, lines: seq<string>, n: nat, front: seq<LogEntry>, es: seq<LogEntry>)
    requires 0 < n <= |lines| && LoadLines(env, lines, n - 1) == Ok(front)
    requires EndsIn(env, lines[n - 1], n - 1, front, es)
    ensures LoadLines(env, lines, n) == Ok(es)
  {
    assert HashBefore(env, es, |front|) == LastHash(env, front);
  }

  lemma LastPlace(n: nat, at: seq<nat>)
    requires 0 < n && n - 1 in at && (forall k :: 0 <= k < |at| ==> at[k] < n)
    requires forall j, k :: 0 <= j < k < |at| ==> at[j] < at[k]
    ensures at[|at| - 1] == n - 1 && forall k :: 0 <= k < |at| - 1 ==> at[k] < n - 1
  {
    var k :| 0 <= k < |at| && at[k] == n - 1;
  }

  lemma ChainedFront(env: Env, es: seq<LogEntry>)
    requires Chained(env, es) && es != []
    ensures Chained(env, es[..|es| - 1]) && Linked(env, es, |es| - 1)
  {
    var front := es[..|es| - 1];
    forall i | 0 <= i < |front| ensures Linked(env, front, i) {
      assert Linked(env, es, i);
    }
  }

  lemma LastIsRead(env: Env, lines: seq<string>, n: nat, at: seq<nat>, es: seq<LogEntry>)
    returns (front: seq<LogEntry>)
    requires 0 < n <= |lines| && Reads(env, lines, n, at, es) && !Blank(lines[n - 1])
    ensures |at| > 0 && Reads(env, lines, n - 1, at[..|at| - 1], front) && EndsIn(env, lines[n - 1], n - 1, front, es)
  {
    front := es[..|es| - 1];
    var last := |at| - 1;
    LastPlace(n, at);
    ChainedFront(env, es);
    assert ReadsOne(env, lines[at[last]], at[last], es[last]);
    forall i | 0 <= i < n - 1 && !Blank(lines[i]) ensures i in at[..last] {
      assert i in at;
    }
    forall k | 0 <= k < last ensures at[k] < n - 1 && ReadsOne(env, lines[at[k]], at[k], es[k]) {
    }
  }

  /** A file loads as these entries if and only if they are the records of its lines that are not
    * blank, in order, each with the number of its line and the hash of the one before. */
  lemma LoadsExactly(env: Env, file: File, es: seq<LogEntry>)
    ensures LoadFile(env, file) == Ok(es) <==> exists at :: Reads(env, file.lines, |file.lines|, at, es)
  {
    if LoadFile(env, file) == Ok(es) {
      var at := LoadReads(env, file.lines, |file.lines|);
    } else if exists at :: Reads(env, file.lines, |file.lines|, at, es) {
      var at :| Reads(env, file.lines, |file.lines|, at, es);
      ReadsLoad(env, file.lines, |file.lines|, at, es);
    }
  }

  lemma {:induction false} LoadErrorSticks(env: Env, lines: seq<string>, m: nat, n: nat)
    requires m <= n <= |lines| && LoadLines(env, lines, m).Err?
    ensures LoadLines(env, lines, n) == LoadLines(env, lines, m)
    decreases n
  {
    if m == n {
    } else {
      LoadErrorSticks(env, lines, m, n - 1);
    }
  }

  lemma {:induction false} LoadOfPrefix(env: Env, lines: seq<string>, more: seq<string>, n: nat)
    requires n <= |lines|
    ensures LoadLines(env, lines + more, n) == LoadLines(env, lines, n)
    decreases n
  {
    if n == 0 {
    } else {
      LoadOfPrefix(env, lines, more, n - 1);
    }
  }

  lemma LoadOneMore(env: Env, lines: seq<string>, line: string)
    ensures var loaded := LoadLines(env, lines, |lines|);
      LoadLines(env, lines + [line], |lines| + 1) ==
      if loaded.Err? then loaded else LoadLine(env, loaded.value, |lines|, line)
  {
    LoadOfPrefix(env, lines, [line], |lines|);
    assert (lines + [line])[|lines|] == line;
  }

  // ---------------------------------------------------------------------------------
  // Appending
  // ---------------------------------------------------------------------------------

  function Truncate64(n: nat): U64
  {
    n % 0x1_0000_0000_0000_0000
  }

  lemma TruncateSmall(n: nat)
    requires n < 0x1_0000_0000_0000_0000
    ensures Truncate64(n) == n
  {
  }

  function NextEntry(env: Env, entries: seq<LogEntry>, event: AuditEvent, ts: U64): LogEntry
  {
    var x := EntryInput(Truncate64(|entries|), ts, LastHash(env, entries), event);
    LogEntry(x.num, x.timestamp, x.prevHash, x.event, env.hs.entry(x))
  }

  /** Whether the file can take one more record: it has one line per entry, or one blank line more
    * that the record is going to be written behind. */
  predicate TakesRecord(env: Env, file: File, es: seq<LogEntry>)
  {
    if file.ended || file.lines == [] then |es| == |file.lines|
    else
      var n := |file.lines| - 1;
      |es| == n && Passed(env, file.lines[n])
  }

  lemma RecordLine(env: Env, es: seq<LogEntry>, event: AuditEvent, ts: U64, space: string, i: nat)
    requires Faithful(env) && |es| < 0x1_0000_0000_0000_0000 && Blank(space)
    ensures var e := NextEntry(env, es, event, ts); var line := space + env.encode(e.num, e);
      !Blank(line) &&
      if |es| == i && Passed(env, space) then LoadLine(env, es, i, line) == Ok(es + [e])
      else LoadLine(env, es, i, line).Err?
  {
    TruncateSmall(|es|);
    var e := NextEntry(env, es, event, ts);
    var record := env.encode(|es|, e);
    assert FaithfulRecord(env, |es|, e) && FaithfulElsewhere(env, i, |es|, e) &&
      FaithfulIndented(env, space, i, |es|, e);
    var c :| c in record && !IsSpace(c);
    assert c in space + record;
  }

  lemma AppendOnOwnLine(env: Env, lines: seq<string>, es: seq<LogEntry>, event: AuditEvent, ts: U64)
    requires Faithful(env) && LoadLines(env, lines, |lines|) == Ok(es) && |lines| < 0x1_0000_0000_0000_0000
    ensures var e := NextEntry(env, es, event, ts); var all := lines + [env.encode(e.num, e)];
      if |es| == |lines| then LoadLines(env, all, |all|) == Ok(es + [e]) else LoadLines(env, all, |all|).Err?
  {
    var e := NextEntry(env, es, event, ts);
    LoadedIsChained(env, lines, |lines|);
    RecordLine(env, es, event, ts, "", |lines|);
    assert "" + env.encode(e.num, e) == env.encode(e.num, e);
    LoadOneMore(env, lines, env.encode(e.num, e));
  }

  lemma AppendBehind(
      env: Env, front: seq<string>, last: string, es: seq<LogEntry>, event: AuditEvent, ts: U64)
    requires Faithful(env) && LoadLines(env, front + [last], |front| + 1) == Ok(es)
    requires |front| < 0x1_0000_0000_0000_0000
    ensures var e := NextEntry(env, es, event, ts); var all := front + [last + env.encode(e.num, e)];
      if |es| == |front| && Passed(env, last) then LoadLines(env, all, |all|) == Ok(es + [e])
      else LoadLines(env, all, |all|).Err?
  {
    var e := NextEntry(env, es, event, ts);
    LoadOneMore(env, front, last);
    LoadOneMore(env, front, last + env.encode(e.num, e));
    LoadedIsChained(env, front, |front|);
    if Blank(last) {
      RecordLine(env, es, event, ts, last, |front|);
    } else {
      assert FaithfulJoined(env, last, |front|, e.num, e);
      var c :| c in last && !IsSpace(c);
      assert c in last + env.encode(e.num, e);
    }
  }

  /** What appending to a log that was opened from `file` does to the next opening: it succeeds, with
    * the new entry last, exactly when the file could take the record; with or without the newline. */
  lemma AppendThenLoad(env: Env, file: File, event: AuditEvent, ts: U64, ended: bool)
    requires Faithful(env) && LoadFile(env, file).Ok? && |file.lines| < 0x1_0000_0000_0000_0000
    ensures var es := LoadFile(env, file).value; var e := NextEntry(env, es, event, ts);
      var next := Write(file, env.encode(e.num, e), ended);
      if TakesRecord(env, file, es) then
        LoadFile(env, next) == Ok(es + [e]) && (TakesRecord(env, next, es + [e]) <==> ended)
      else LoadFile(env, next).Err?
  {
    var es := LoadFile(env, file).value;
    var e := NextEntry(env, es, event, ts);
    LoadedIsChained(env, file.lines, |file.lines|);
    if file.ended || file.lines == [] {
      AppendOnOwnLine(env, file.lines, es, event, ts);
      if |es| == |file.lines| { RecordLine(env, es, event, ts, "", |es|); }
      assert "" + env.encode(e.num, e) == env.encode(e.num, e);
    } else {
      var n := |file.lines| - 1;
      assert file.lines == file.lines[..n] + [file.lines[n]];
      AppendBehind(env, file.lines[..n], file.lines[n], es, event, ts);
      if Blank(file.lines[n]) && |es| == n { RecordLine(env, es, event, ts, file.lines[n], n); }
    }
  }

  // ---------------------------------------------------------------------------------
  // The log object
  // ---------------------------------------------------------------------------------

  class TransparencyLog {
    const env: Env
    const logId: Bytes
    const sign: Bytes -> Bytes
    var file: File
    var entries: seq<LogEntry>
    var leaves: seq<Hash>

    ghost predicate Valid()
      reads this
    {
      leaves == Leaves(env, entries)
    }

    constructor (env: Env, logId: Bytes, sign: Bytes -> Bytes, file: File)
      ensures Valid() && this.env == env && this.logId == logId && this.sign == sign
      ensures this.file == file && entries == [] && leaves == []
    {
      this.env, this.logId, this.sign, this.file, entries, leaves := env, logId, sign, file, [], [];
    }

    /** Open the log at a path: load the file there, or start an empty log if there is none. */
    static method Open(env: Env, logId: Bytes, sign: Bytes -> Bytes, found: Option<File>)
      returns (r: Result<TransparencyLog, LoadError>)
      ensures r.Ok? <==> found.None? || LoadFile(env, found.value).Ok?
      ensures r.Ok? ==> fresh(r.value) && r.value.Valid() && r.value.env == env
      ensures r.Ok? ==> r.value.logId == logId && r.value.sign == sign
      ensures r.Ok? ==> LoadFile(env, r.value.file) == Ok(r.value.entries)
      ensures r.Ok? ==> r.value.file == if found.Some? then found.value else File([], true)
      ensures r.Err? ==> LoadFile(env, found.value) == Err(r.error)
    {
      var log := new TransparencyLog(env, logId, sign, if found.Some? then found.value else File([], true));
      if found.Some? {
        var failure := log.Load();
        if failure.Some? {
          return Err(failure.value);
        }
      }
      return Ok(log);
    }

    method Load() returns (r: Option<LoadError>)
      requires entries == [] && leaves == []
      modifies this`entries, this`leaves
      ensures LoadFile(env, file).Ok? ==> r == None && Valid() && entries == LoadFile(env, file).value
      ensures LoadFile(env, file).Err? ==> r == Some(LoadFile(env, file).error)
    {
      var prev := env.hs.genesis;
      for i := 0 to |file.lines|
        invariant LoadLines(env, file.lines, i) == Ok(entries)
        invariant prev == LastHash(env, entries) && Valid()
      {
        var line := file.lines[i];
        if !Blank(line) {
          var record := CheckRecord(env, i, line, prev);
          if record.Err? {
            LoadErrorSticks(env, file.lines, i + 1, |file.lines|);
            return Some(record.error);
          }
          var entry := record.value;
          prev := entry.entryHash;
          leaves := leaves + [env.hs.leaf(entry.entryHash)];
          entries := entries + [entry];
          assert entries[..|entries| - 1] == LoadLines(env, file.lines, i).value;
        }
      }
      return None;
    }

    method Append(event: AuditEvent, now: U64) returns (entry: LogEntry)
      requires Valid()
      modifies this`file, this`entries, this`leaves
      ensures Valid()
      ensures entry == NextEntry(env, old(entries), event, now)
      ensures entry.event == event && entry.timestamp == now && entry.prevHash == LastHash(env, old(entries))
      ensures |old(entries)| < 0x1_0000_0000_0000_0000 ==> entry.num == |old(entries)|
      ensures entry.entryHash == env.hs.entry(Input(entry))
      ensures entries == old(entries) + [entry]
      ensures file == Write(old(file), env.encode(entry.num, entry), true)
    {
      var num := Truncate64(|entries|);
      var prev := if |entries| == 0 then env.hs.genesis else entries[|entries| - 1].entryHash;
      var hash := env.hs.entry(EntryInput(num, now, prev, event));
      entry := LogEntry(num, now, prev, event, hash);
      file := Write(file, env.encode(num, entry), true);
      leaves := leaves + [env.hs.leaf(entry.entryHash)];
      entries := entries + [entry];
      assert entries[..|entries| - 1] == old(entries);
    }

    /** A signed commitment to the number of entries and the root of their leaf hashes. */
    method MakeCheckpoint(now: U64) returns (c: Checkpoint)
      requires Valid()
      ensures c.logId == logId && c.timestamp == now && c.treeSize == Truncate64(|entries|)
      ensures c.root == Root(env.hs.tree, Leaves(env, entries))
      ensures c.signature == sign(SignedBytes(c.logId, c.treeSize, c.root, c.timestamp))
    {
      var size, root := Truncate64(|entries|), Root(env.hs.tree, leaves);
      c := Checkpoint(logId, size, root, now, sign(SignedBytes(logId, size, root, now)));
    }

    /** A proof that entry `index` is in the log, which the verifier accepts. */
    method ProveInclusion(index: nat) returns (r: Option<(Hash, seq<Hash>)>)
      requires Valid()
      ensures r.None? <==> index >= |entries|
      ensures r.Some? ==> r.value.0 == env.hs.leaf(entries[index].entryHash)
      ensures r.Some? ==>
        AcceptsInclusion(env.hs.tree, r.value.0, index, |entries|, r.value.1, Root(env.hs.tree, Leaves(env, entries)))
    {
      if index >= |leaves| {
        return None;
      }
      LeavesAt(env, entries, index);
      InclusionComplete(env.hs.tree, leaves, index);
      return Some((leaves[index], InclusionProof(env.hs.tree, leaves, index)));
    }

    /** A proof that the log extends what it was at an earlier size. */
    method ProveConsistency(oldSize: nat) returns (r: Option<seq<Hash>>)
      requires Valid()
      ensures r.None? <==> oldSize == 0 || oldSize > |entries|
      ensures r.Some? ==> AcceptsConsistency(env.hs.tree, oldSize, |entries|, r.value,
        Root(env.hs.tree, Leaves(env, entries[..oldSize])), Root(env.hs.tree, Leaves(env, entries)))
    {
      if oldSize == 0 || oldSize > |leaves| {
        return None;
      }
      LeavesPrefix(env, entries, oldSize);
      ConsistencyComplete(env.hs.tree, leaves, oldSize);
      return Some(ConsistencyProof(env.hs.tree, leaves, oldSize));
    }
  }

  // ---------------------------------------------------------------------------------
  // Whole runs
  // ---------------------------------------------------------------------------------

  datatype Log = Log(file: File, entries: seq<LogEntry>)

  /** A torn append is one that stops after the record and before its newline; the log is then
    * opened again. */
  datatype Op = Append(event: AuditEvent, now: U64) | Torn(event: AuditEvent, now: U64) | Reopen

  function Load(env: Env, file: File): Option<Log>
  {
    match LoadFile(env, file)
    case Ok(es) => Some(Log(file, es))
    case Err(_) => None
  }

  /** One operation; None when opening the file fails. */
  function Apply(env: Env, log: Log, op: Op): Option<Log>
  {
    match op
    case Append(event, now) =>
      var e := NextEntry(env, log.entries, event, now);
      Some(Log(Write(log.file, env.encode(e.num, e), true), log.entries + [e]))
    case Torn(event, now) =>
      var e := NextEntry(env, log.entries, event, now);
      Load(env, Write(log.file, env.encode(e.num, e), false))
    case Reopen => Load(env, log.file)
  }

  function Run(env: Env, log: Log, ops: seq<Op>): Option<Log>
    decreases |ops|
  {
    if ops == [] then Some(log)
    else
      match Run(env, log, ops[..|ops| - 1])
      case None => None
      case Some(l) => Apply(env, l, ops[|ops| - 1])
  }

  /** Where a run is: the file reads back as the entries and can take another record (sound) or
    * cannot (locked), or it does not open any more (broken), or opening it has failed. */
  datatype Fate = Sound | Locked | Broken | Failed

  function Next(fate: Fate, op: Op): Fate
  {
    match fate
    case Sound => if op.Torn? then Locked else Sound
    case Locked => if op.Append? then Broken else if op.Torn? then Failed else Locked
    case Broken => if op.Append? then Broken else Failed
    case Failed => Failed
  }

  function After(fate: Fate, ops: seq<Op>): Fate
  {
    if ops == [] then fate else Next(After(fate, ops[..|ops| - 1]), ops[|ops| - 1])
  }

  ghost predicate HasFate(env: Env, log: Option<Log>, fate: Fate)
  {
    match fate
    case Sound =>
      log.Some? && LoadFile(env, log.value.file) == Ok(log.value.entries) &&
      TakesRecord(env, log.value.file, log.value.entries)
    case Locked =>
      log.Some? && LoadFile(env, log.value.file) == Ok(log.value.entries) &&
      !TakesRecord(env, log.value.file, log.value.entries)
    case Broken => log.Some? && LoadFile(env, log.value.file).Err? && log.value.file.ended
    case Failed => log.None?
  }

  /** A file that does not open never opens again. */
  lemma WriteKeepsError(env: Env, file: File, text: string, ended: bool)
    requires LoadFile(env, file).Err? && file.ended
    ensures LoadFile(env, Write(file, text, ended)).Err?
  {
    LoadOneMore(env, file.lines, text);
  }

  lemma ApplyHasFate(env: Env, log: Log, fate: Fate, op: Op)
    requires Faithful(env) && HasFate(env, Some(log), fate) && |log.file.lines| < 0x1_0000_0000_0000_0000
    ensures HasFate(env, Apply(env, log, op), Next(fate, op))
    ensures Apply(env, log, op).Some? ==> log.entries <= Apply(env, log, op).value.entries
    ensures Apply(env, log, op).Some? ==> |Apply(env, log, op).value.file.lines| <= |log.file.lines| + 1
  {
    if op.Reopen? {
    } else {
      var e := NextEntry(env, log.entries, op.event, op.now);
      if fate == Broken {
        WriteKeepsError(env, log.file, env.encode(e.num, e), op.Append?);
      } else {
        AppendThenLoad(env, log.file, op.event, op.now, op.Append?);
      }
    }
  }

  /** No run reads back anything but what was appended, or loses an earlier entry; which runs fail
    * depends only on whether the file can take a record at the start, and on the operations. */
  lemma {:induction false} RunStaysInStep(env: Env, log: Log, fate: Fate, ops: seq<Op>)
    requires Faithful(env) && HasFate(env, Some(log), fate)
    requires |log.file.lines| + |ops| <= 0x1_0000_0000_0000_0000
    ensures HasFate(env, Run(env, log, ops), After(fate, ops))
    ensures Run(env, log, ops).Some? ==> log.entries <= Run(env, log, ops).value.entries
    ensures Run(env, log, ops).Some? ==> |Run(env, log, ops).value.file.lines| <= |log.file.lines| + |ops|
    decreases |ops|
  {
    if ops == [] {
    } else {
      var front, op := ops[..|ops| - 1], ops[|ops| - 1];
      RunStaysInStep(env, log, fate, front);
      if Run(env, log, front).Some? { ApplyHasFate(env, Run(env, log, front).value, After(fate, front), op); }
    }
  }

  /** What an append is given. */
  datatype Given = Given(event: AuditEvent, now: U64)

  /** What the appends among the operations are given, torn ones included, in order. */
  function Writes(ops: seq<Op>): (r: seq<Given>)
    ensures |r| <= |ops|
  {
    if ops == [] then []
    else
      var op := ops[|ops| - 1];
      Writes(ops[..|ops| - 1]) + if op.Reopen? then [] else [Given(op.event, op.now)]
  }

  /** Entry n has the event and the time given, has number n, and commits to the entry before it. */
  ghost predicate Records(env: Env, entries: seq<LogEntry>, n: nat, given: Given)
    requires n < |entries|
  {
    entries[n].event == given.event && entries[n].timestamp == given.now && entries[n].num == n &&
    Linked(env, entries, n)
  }

  /** The entries from n on are one for each of the given, in order. */
  ghost predicate RecordsAll(env: Env, entries: seq<LogEntry>, n: nat, given: seq<Given>)
  {
    |entries| == n + |given| && forall k :: 0 <= k < |given| ==> Records(env, entries, n + k, given[k])
  }

  lemma RecordsOneMore(
      env: Env, entries: seq<LogEntry>, after: seq<LogEntry>, n: nat, given: seq<Given>, g: Given)
    requires RecordsAll(env, entries, n, given) && entries <= after && |after| == |entries| + 1
    requires Records(env, after, |entries|, g)
    ensures RecordsAll(env, after, n, given + [g])
  {
    forall k | 0 <= k < |given| + 1 ensures Records(env, after, n + k, (given + [g])[k]) {
      if k < |given| { assert Records(env, entries, n + k, given[k]) && Linked(env, entries, n + k); }
    }
  }

  lemma ApplyRecords(env: Env, log: Log, fate: Fate, op: Op)
    requires Faithful(env) && HasFate(env, Some(log), fate) && |log.file.lines| < 0x1_0000_0000_0000_0000
    requires |log.entries| < 0x1_0000_0000_0000_0000 && Apply(env, log, op).Some?
    ensures var after := Apply(env, log, op).value.entries;
      if op.Reopen? then after == log.entries
      else
        |after| == |log.entries| + 1 && log.entries <= after &&
        Records(env, after, |log.entries|, Given(op.event, op.now))
  {
    if op.Reopen? {
    } else {
      var e := NextEntry(env, log.entries, op.event, op.now);
      TruncateSmall(|log.entries|);
      if fate == Broken {
        WriteKeepsError(env, log.file, env.encode(e.num, e), op.Append?);
      } else {
        AppendThenLoad(env, log.file, op.event, op.now, op.Append?);
      }
    }
  }

  /** After any run the log holds what it was opened with and then, for every record written, one
    * entry with the event and the time it was given, numbered and chained in that order. */
  lemma {:induction false} RunRecords(env: Env, log: Log, fate: Fate, ops: seq<Op>)
    requires Faithful(env) && HasFate(env, Some(log), fate) && Run(env, log, ops).Some?
    requires |log.file.lines| + |ops| <= 0x1_0000_0000_0000_0000
    requires |log.entries| + |ops| <= 0x1_0000_0000_0000_0000
    ensures log.entries <= Run(env, log, ops).value.entries
    ensures RecordsAll(env, Run(env, log, ops).value.entries, |log.entries|, Writes(ops))
    decreases |ops|
  {
    if ops == [] {
    } else {
      var front, op := ops[..|ops| - 1], ops[|ops| - 1];
      RunRecords(env, log, fate, front);
      RunStaysInStep(env, log, fate, front);
      var middle := Run(env, log, front).value;
      ApplyRecords(env, middle, After(fate, front), op);
      if !op.Reopen? {
        RecordsOneMore(env, middle.entries, Run(env, log, ops).value.entries, |log.entries|, Writes(front),
          Given(op.event, op.now));
      }
    }
  }

  /** The same for a log opened from a file. */
  lemma EveryAppendIsRecorded(env: Env, file: File, es: seq<LogEntry>, ops: seq<Op>)
    requires Faithful(env) && LoadFile(env, file) == Ok(es) && Run(env, Log(file, es), ops).Some?
    requires |file.lines| + |ops| <= 0x1_0000_0000_0000_0000
    ensures es <= Run(env, Log(file, es), ops).value.entries
    ensures RecordsAll(env, Run(env, Log(file, es), ops).value.entries, |es|, Writes(ops))
  {
    LoadedIsChained(env, file.lines, |file.lines|);
    RunRecords(env, Log(file, es), if TakesRecord(env, file, es) then Sound else Locked, ops);
  }

  /** One of the first n operations is a torn append. */
  predicate Tears(ops: seq<Op>, n: nat)
    requires n <= |ops|
  {
    exists i :: 0 <= i < n && ops[i].Torn?
  }

  /** One of the first n operations writes a record to a file that cannot take it. */
  predicate Breaks(locked: bool, ops: seq<Op>, n: nat)
    requires n <= |ops|
  {
    exists i :: 0 <= i < n && !ops[i].Reopen? && (locked || Tears(ops, i))
  }

  /** One of the first n operations opens the file after that, or in the course of it. */
  predicate Fails(locked: bool, ops: seq<Op>, n: nat)
    requires n <= |ops|
  {
    exists i :: 0 <= i < n && !ops[i].Append? && Breaks(locked, ops, i + 1)
  }

  lemma OneMoreOp(locked: bool, ops: seq<Op>, n: nat)
    requires n < |ops|
    ensures Tears(ops, n + 1) <==> Tears(ops, n) || ops[n].Torn?
    ensures Breaks(locked, ops, n + 1) <==> Breaks(locked, ops, n) || (!ops[n].Reopen? && (locked || Tears(ops, n)))
    ensures Fails(locked, ops, n + 1) <==> Fails(locked, ops, n) || (!ops[n].Append? && Breaks(locked, ops, n + 1))
  {
  }

  lemma {:induction false} FateIs(locked: bool, ops: seq<Op>, n: nat)
    requires n <= |ops|
    ensures After(if locked then Locked else Sound, ops[..n]) ==
      if Fails(locked, ops, n) then Failed
      else if Breaks(locked, ops, n) then Broken
      else if locked || Tears(ops, n) then Locked
      else Sound
  {
    if n == 0 {
    } else {
      assert ops[..n][..n - 1] == ops[..n - 1];
      OneMoreOp(locked, ops, n - 1);
      FateIs(locked, ops, n - 1);
    }
  }

  /** A run from a file that opens fails exactly when a record is written to a file that cannot take
    * it, because the file could not at first or because of a torn append, and the log is then
    * opened again. */
  lemma RunFailsExactly(env: Env, file: File, es: seq<LogEntry>, ops: seq<Op>)
    requires Faithful(env) && LoadFile(env, file) == Ok(es)
    requires |file.lines| + |ops| <= 0x1_0000_0000_0000_0000
    ensures Run(env, Log(file, es), ops).None? <==> Fails(!TakesRecord(env, file, es), ops, |ops|)
  {
    var locked := !TakesRecord(env, file, es);
    RunStaysInStep(env, Log(file, es), if locked then Locked else Sound, ops);
    FateIs(locked, ops, |ops|);
    assert ops[..|ops|] == ops;
  }

  /** The shortest failing runs. A file of one empty line opens as the empty log, takes an entry, and
    * does not open again. */
  lemma BlankLineLocksTheLog(env: Env, event: AuditEvent, now: U64)
    requires Faithful(env)
    ensures var log := Log(File([""], true), []);
      LoadFile(env, log.file) == Ok([]) && Run(env, log, [Append(event, now)]).Some? &&
      Run(env, log, [Append(event, now), Reopen]).None?
  {
    var log := Log(File([""], true), []);
    assert LoadLines(env, [""], 0) == Ok([]);
    AppendThenReopen(env, log.file, event, now);
  }

  /** So does a file without blank lines, once a torn append has left its record without a newline. */
  lemma TornAppendLocksTheLog(env: Env, event: AuditEvent, now: U64)
    requires Faithful(env)
    ensures var log := Run(env, Log(File([], true), []), [Torn(event, now)]);
      log.Some? && |log.value.file.lines| == 1 && !Blank(log.value.file.lines[0]) && |log.value.entries| == 1 &&
      Run(env, log.value, [Append(event, now), Reopen]).None?
  {
    var start := Log(File([], true), []);
    var ops: seq<Op> := [Torn(event, now)];
    assert ops[..0] == [] && Run(env, start, []) == Some(start);
    AppendThenLoad(env, start.file, event, now, false);
    RecordLine(env, [], event, now, "", 0);
    var e := NextEntry(env, [], event, now);
    assert "" + env.encode(e.num, e) == env.encode(e.num, e);
    AppendThenReopen(env, Run(env, start, ops).value.file, event, now);
  }

  /** An append of which only a part is written leaves a file that does not open, whatever it was. */
  lemma CutAppendLocksTheLog(env: Env, file: File, event: AuditEvent, now: U64, k: nat)
    requires Faithful(env) && LoadFile(env, file).Ok?
    requires var e := NextEntry(env, LoadFile(env, file).value, event, now); 0 < k < |env.encode(e.num, e)|
    ensures var e := NextEntry(env, LoadFile(env, file).value, event, now);
      LoadFile(env, Write(file, env.encode(e.num, e)[..k], false)).Err?
  {
    var e := NextEntry(env, LoadFile(env, file).value, event, now);
    var part, lines, n := env.encode(e.num, e)[..k], file.lines, |file.lines| - 1;
    if file.ended || lines == [] {
      assert FaithfulCut(env, "", |lines|, e.num, e, k) && "" + part == part;
      LoadOneMore(env, lines, part);
    } else {
      assert FaithfulCut(env, lines[n], n, e.num, e, k) && lines == lines[..n] + [lines[n]];
      LoadOneMore(env, lines[..n], lines[n]);
      LoadOneMore(env, lines[..n], lines[n] + part);
    }
  }

  /** And one blank line is no harm if the record is written behind it. */
  lemma OpenBlankLineIsHarmless(env: Env, event: AuditEvent, now: U64)
    requires Faithful(env)
    ensures var log := Log(File([" "], false), []);
      LoadFile(env, log.file) == Ok([]) && Run(env, log, [Append(event, now), Reopen]).Some?
  {
    assert LoadLines(env, [" "], 0) == Ok([]);
    AppendThenReopen(env, File([" "], false), event, now);
  }

  lemma AppendThenReopen(env: Env, file: File, event: AuditEvent, now: U64)
    requires Faithful(env) && LoadFile(env, file).Ok? && |file.lines| + 2 <= 0x1_0000_0000_0000_0000
    ensures var log := Log(file, LoadFile(env, file).value);
      Run(env, log, [Append(event, now)]).Some? &&
      (Run(env, log, [Append(event, now), Reopen]).Some? <==> TakesRecord(env, file, log.entries))
  {
    var log := Log(file, LoadFile(env, file).value);
    var one: seq<Op> := [Append(event, now)];
    var two := [Append(event, now), Reopen];
    assert one[..0] == [] && two[..1] == one;
    AppendThenLoad(env, file, event, now, true);
  }

  /** The verifier accepts the later log's consistency proof from the earlier log's root. */
  ghost predicate StaysProvable(env: Env, early: seq<LogEntry>, late: seq<LogEntry>)
  {
    |early| <= |late| &&
    (early != [] ==>
      AcceptsConsistency(env.hs.tree, |early|, |late|, ConsistencyProof(env.hs.tree, Leaves(env, late), |early|),
        Root(env.hs.tree, Leaves(env, early)), Root(env.hs.tree, Leaves(env, late))))
  }

  lemma ExtensionStaysProvable(env: Env, early: seq<LogEntry>, late: seq<LogEntry>)
    requires early <= late
    ensures StaysProvable(env, early, late)
  {
    if early != [] {
      assert late[..|early|] == early;
      LeavesPrefix(env, late, |early|);
      ConsistencyComplete(env.hs.tree, Leaves(env, late), |early|);
    }
  }

  lemma UntornIsSound(ops: seq<Op>)
    requires !Tears(ops, |ops|)
    ensures After(Sound, ops) == Sound
  {
    FateIs(false, ops, |ops|);
    assert ops[..|ops|] == ops;
  }

  /** Every checkpoint stays provable: whatever file the log is opened from, whatever is appended,
    * and however often the log is reopened, the later log proves itself consistent with the
    * earlier root. */
  lemma EveryCheckpointStaysProvable(
      env: Env, file: File, es: seq<LogEntry>, before: seq<Op>, after: seq<Op>)
    requires Faithful(env) && LoadFile(env, file) == Ok(es)
    requires |file.lines| + |before| + |after| <= 0x1_0000_0000_0000_0000
    ensures var early := Run(env, Log(file, es), before);
      early.Some? && Run(env, early.value, after).Some? ==>
        StaysProvable(env, early.value.entries, Run(env, early.value, after).value.entries)
    ensures TakesRecord(env, file, es) && !Tears(before, |before|) && !Tears(after, |after|) ==>
      Run(env, Log(file, es), before).Some? && Run(env, Run(env, Log(file, es), before).value, after).Some?
  {
    var fate := if TakesRecord(env, file, es) then Sound else Locked;
    RunStaysInStep(env, Log(file, es), fate, before);
    if !Tears(before, |before|) { UntornIsSound(before); }
    if !Tears(after, |after|) { UntornIsSound(after); }
    if Run(env, Log(file, es), before).Some? {
      var early := Run(env, Log(file, es), before).value;
      RunStaysInStep(env, early, After(fate, before), after);
      if Run(env, early, after).Some? {
        ExtensionStaysProvable(env, early.entries, Run(env, early, after).value.entries);
      }
    }
  }

  // ---------------------------------------------------------------------------------
  // Tamper evidence
  // ---------------------------------------------------------------------------------

  /** The inputs of all these entry hashes are in s. */
  ghost predicate EntriesWithin(entries: seq<LogEntry>, s: set<EntryInput>)
  {
    forall i :: 0 <= i < |entries| ==> Input(entries[i]) in s
  }

  lemma SameEntry(env: Env, a: LogEntry, b: LogEntry, s: set<EntryInput>)
    requires !EntriesCollide(env.hs, s) && a.entryHash == b.entryHash && Input(a) in s && Input(b) in s
    requires a.entryHash == env.hs.entry(Input(a)) && b.entryHash == env.hs.entry(Input(b))
    ensures a == b
  {
    assert !EntryClash(env.hs, Input(a), Input(b));
  }

  /** The last hash of a chain pins down the whole chain before it. */
  lemma {:induction false} ChainPinned(
      env: Env, es: seq<LogEntry>, m: nat, fs: seq<LogEntry>, n: nat, s: set<EntryInput>)
    requires m <= |es| && n <= |fs| && HashBefore(env, es, m) == HashBefore(env, fs, n)
    requires Chained(env, es) && Chained(env, fs) && EntriesWithin(es, s) && EntriesWithin(fs, s)
    requires !EntriesCollide(env.hs, s) && !HitsGenesis(env.hs, s)
    ensures m == n && (forall i :: 0 <= i < m ==> es[i] == fs[i])
    decreases m
  {
    if m > 0 { assert Linked(env, es, m - 1); }
    if n > 0 { assert Linked(env, fs, n - 1); }
    if m > 0 && n > 0 {
      SameEntry(env, es[m - 1], fs[n - 1], s);
      ChainPinned(env, es, m - 1, fs, n - 1, s);
    }
  }

  /** Two files that open and end in the same hash hold the same entries, unless two of the
    * entries hashed collide or one hashes to the genesis value. */
  lemma TamperEvident(env: Env, file1: File, file2: File, s: set<EntryInput>)
    requires LoadFile(env, file1).Ok? && LoadFile(env, file2).Ok?
    requires EntriesWithin(LoadFile(env, file1).value, s) && EntriesWithin(LoadFile(env, file2).value, s)
    requires LastHash(env, LoadFile(env, file1).value) == LastHash(env, LoadFile(env, file2).value)
    ensures LoadFile(env, file1) == LoadFile(env, file2) || EntriesCollide(env.hs, s) || HitsGenesis(env.hs, s)
  {
    LoadedIsChained(env, file1.lines, |file1.lines|);
    LoadedIsChained(env, file2.lines, |file2.lines|);
    if !EntriesCollide(env.hs, s) && !HitsGenesis(env.hs, s) {
      var es, fs := LoadFile(env, file1).value, LoadFile(env, file2).value;
      ChainPinned(env, es, |es|, fs, |fs|, s);
      assert es == fs;
    }
  }

  ghost predicate LeavesWithin(entries: seq<LogEntry>, s: set<Hash>)
  {
    forall i :: 0 <= i < |entries| ==> entries[i].entryHash in s
  }

  /** What an accepted consistency proof says about two files that open: the entries of the
    * first are the first entries of the second, unless an entry, leaf or node hash collides. */
  lemma AcceptedHistoryIsExtended(
      env: Env, es: seq<LogEntry>, fs: seq<LogEntry>, proof: seq<Hash>,
      entries: set<EntryInput>, leaves: set<Hash>, nodes: set<(Hash, Hash)>)
    requires Chained(env, es) && Chained(env, fs)
    requires var t, xs, ys := env.hs.tree, Leaves(env, es), Leaves(env, fs);
      AcceptsConsistency(t, |es|, |fs|, proof, Root(t, xs), Root(t, ys)) &&
      RootWithin(t, xs, nodes) && RootWithin(t, ys, nodes) &&
      ConsistencyWithin(t, PrefixTurns(|xs|, |ys|), TopDown(proof), Some(Root(t, xs)), nodes)
    requires EntriesWithin(es, entries) && EntriesWithin(fs, entries)
    requires LeavesWithin(es, leaves) && LeavesWithin(fs, leaves)
    ensures es <= fs || EntriesCollide(env.hs, entries) || LeavesCollide(env.hs, leaves) || Collides(env.hs.tree, nodes)
  {
    ConsistencySound(env.hs.tree, Leaves(env, es), Leaves(env, fs), proof, nodes);
    if !(EntriesCollide(env.hs, entries) || LeavesCollide(env.hs, leaves) || Collides(env.hs.tree, nodes)) {
      forall i | 0 <= i < |es| ensures es[i] == fs[i] {
        LeavesAt(env, es, i);
        LeavesAt(env, fs, i);
        assert Leaves(env, fs)[..|es|][i] == Leaves(env, fs)[i];
        assert !LeafClash(env.hs, es[i].entryHash, fs[i].entryHash);
        assert Linked(env, es, i) && Linked(env, fs, i);
        SameEntry(env, es[i], fs[i], entries);
      }
    }
  }
}
