/**
 * The run of parse.py (lines 41-165): load the ledger, walk the directory
 * listing, turn every new `.html` file into a record, write it, record
 * the name in the ledger, stop at the first failure and leave an exit
 * code. The file system and the HTML parser are abstracted by an `Env`.
 */
module ParseDriver {
  import opened Wrappers
  import opened Text
  import opened Seqs
  import opened Ledger
  import opened JsonValue
  import opened ParseRecord
  import opened Storage

  /**
   * What the outside world does for each file: reading it, parsing it
   * and running the selectors, writing its output, and appending to the
   * ledger. Each may raise; a fault is the exception raised.
   */
  datatype Env = Env(
    read: string -> Result<string, Fault>,  // open + f.read() of the input file
    soup: string -> Result<Page, Fault>,    // BeautifulSoup and the selectors, on the HTML text
    writeFault: string -> Option<Fault>,    // open(json_path, "w") + json.dump, by output name
    appendFault: string -> Option<Fault>)   // open(parsed_log_path, "a") + write, by input name

  /** The two `continue` tests at parse.py lines 54-57. */
  predicate Eligible(name: string, parsed: set<string>) {
    EndsWith(name, ".html") && name !in parsed
  }

  /** The error snippet: the first 1000 characters of the last HTML read, newlines folded. */
  function Snippet(html: Option<string>): (r: string)
    ensures html.None? ==> r == "[no HTML loaded]"
    ensures html.Some? ==> |r| == Min(|html.value|, 1000)
    ensures html.Some? ==> forall i :: 0 <= i < |r| ==>
      r[i] == if html.value[i] == '\n' then ' ' else html.value[i]
  {
    if html.None? then "[no HTML loaded]" else FoldNewlines(Take(html.value, 1000))
  }

  /** How a file name and its page become a record; parse.py uses `RecordOf`. */
  type Builder = (string, Page) -> Record

  /** The state after one file: the world, the last HTML read, and the exception raised, if any. */
  datatype Outcome = Outcome(world: World, html: Option<string>, fault: Option<Fault>)

  /** The body of the inner `try` at parse.py lines 60-146 for the file `name`. */
  function Attempt(w: World, html: Option<string>, name: string, env: Env, build: Builder): (r: Outcome)
    ensures r.html == if env.read(name).Success? then Some(env.read(name).value) else html
    ensures r.fault.None? <==>
      && env.read(name).Success?
      && env.soup(env.read(name).value).Success?
      && env.writeFault(JsonName(name)).None?
      && env.appendFault(name).None?
    ensures r.fault.Some? ==> r.world.ledger == w.ledger && r.world.log == w.log
    ensures r.fault.Some? ==> forall k :: k in w.outputs ==> k in r.world.outputs
    ensures r.fault.Some? ==>
      forall k :: k in r.world.outputs ==> k == JsonName(name) || (k in w.outputs && r.world.outputs[k] == w.outputs[k])
    ensures r.fault.None? ==>
      r.world == World(
        w.ledger + name + "\n",
        w.outputs[JsonName(name) := build(name, env.soup(env.read(name).value).value)],
        w.log + [Parsed(name)])
  {
    match env.read(name)
    case Failure(f) => Outcome(w, html, Some(f))
    case Success(text) =>
      match env.soup(text)
      case Failure(f) => Outcome(w, Some(text), Some(f))
      case Success(page) =>
        var out := JsonName(name);
        if env.writeFault(out).Some? then Outcome(w, Some(text), env.writeFault(out))
        else
          var written := w.(outputs := w.outputs[out := build(name, page)]);
          if env.appendFault(name).Some? then Outcome(written, Some(text), env.appendFault(name))
          else Outcome(written.(ledger := w.ledger + name + "\n", log := w.log + [Parsed(name)]), Some(text), None)
  }

  /**
   * The `for` loop at parse.py lines 53-153 over the rest of the listing:
   * the world when the loop stops and the exception that stopped it.
   * The ledger set `parsed` is the one read before the loop.
   */
  function Loop(w: World, parsed: set<string>, html: Option<string>, names: seq<string>, env: Env, build: Builder)
    : (r: (World, Option<Fault>))
    ensures |w.log| <= |r.0.log| && r.0.log[..|w.log|] == w.log
    decreases |names|
  {
    if names == [] then (w, None)
    else if !Eligible(names[0], parsed) then Loop(w, parsed, html, names[1..], env, build)
    else
      var o := Attempt(w, html, names[0], env, build);
      if o.fault.Some? then (o.world.(log := o.world.log + [Failed(names[0], Snippet(o.html))]), o.fault)
      else Loop(o.world, parsed, o.html, names[1..], env, build)
  }

  /** The outer handlers at parse.py lines 155-161, given `exit_code` so far. */
  function Handle(w: World, fault: Option<Fault>, exitCode: int): (World, int) {
    match fault
    case None => (w, exitCode)
    case Some(FileNotFound) => (w.(log := w.log + [ConfigurationError]), 1)
    case Some(OtherError) => (w.(log := w.log + [FatalError]), if exitCode == 0 then 4 else exitCode)
  }

  /**
   * A whole run of parse.py: the world it leaves and its exit status.
   * `listing` is what `os.listdir` returns or raises.
   */
  function RunSpec(w: World, listing: Result<seq<string>, Fault>, env: Env): (r: (World, int))
    ensures |w.log| + 2 <= |r.0.log| && r.0.log[..|w.log|] == w.log
  {
    var started := w.(log := w.log + [Started]);
    var (stopped, fault, exitCode) :=
      match listing
      case Failure(f) => (started, Some(f), 0)
      case Success(names) =>
        var (after, f) := Loop(started, Names(w.ledger), None, names, env, RecordOf);
        (after, f, if f.Some? then 3 else 0);
    var (handled, code) := Handle(stopped, fault, exitCode);
    (handled.(log := handled.log + [Finished]), code)
  }

  /** parse.py lines 60-146 for one file, on the disk. */
  method ProcessFile(disk: Disk, name: string, html: Option<string>, env: Env)
    returns (lastHtml: Option<string>, fault: Option<Fault>)
    modifies disk
    ensures Outcome(disk.State(), lastHtml, fault) == Attempt(old(disk.State()), html, name, env, RecordOf)
  {
    ghost var w := disk.State();
    lastHtml := html;
    var read := env.read(name);
    if read.Failure? {
      return lastHtml, Some(read.error);
    }
    lastHtml := Some(read.value);
    var soup := env.soup(read.value);
    if soup.Failure? {
      return lastHtml, Some(soup.error);
    }
    var data := ExtractRecord(name, soup.value);
    var jsonName := JsonName(name);
    fault := env.writeFault(jsonName);
    if fault.Some? {
      return;
    }
    disk.Write(jsonName, data);
    ghost var written := w.(outputs := w.outputs[jsonName := data]);
    assert disk.State() == written;
    fault := env.appendFault(name);
    if fault.Some? {
      assert Attempt(w, html, name, env, RecordOf) == Outcome(written, lastHtml, fault);
      return;
    }
    disk.Append(name + "\n");
    disk.Log(Parsed(name));
    assert disk.State() == written.(ledger := w.ledger + name + "\n", log := w.log + [Parsed(name)]);
  }

  /** parse.py lines 41-165: one run on the disk, returning the exit status. */
  method Run(disk: Disk, listing: Result<seq<string>, Fault>, env: Env) returns (exitCode: int)
    modifies disk
    ensures (disk.State(), exitCode) == RunSpec(old(disk.State()), listing, env)
  {
    disk.Log(Started);
    exitCode := 0;
    var parsedFiles := Names(disk.ledger);
    var fault: Option<Fault> := None;
    if listing.Failure? {
      fault := Some(listing.error);
    } else {
      var names := listing.value;
      var html: Option<string> := None;
      ghost var total := Loop(disk.State(), parsedFiles, html, names, env, RecordOf);
      var i := 0;
      while i < |names|
        invariant 0 <= i <= |names|
        invariant Loop(disk.State(), parsedFiles, html, names[i..], env, RecordOf) == total
        invariant fault.None? && exitCode == 0
      {
        var filename := names[i];
        assert names[i..][1..] == names[i + 1..];
        if !EndsWith(filename, ".html") || filename in parsedFiles {
          i := i + 1;
          continue;
        }
        var f;
        html, f := ProcessFile(disk, filename, html, env);
        if f.Some? {
          disk.Log(Failed(filename, Snippet(html)));
          exitCode := 3;
          fault := f;
          break;
        }
        i := i + 1;
      }
      assert (disk.State(), fault) == total;
    }
    if fault == Some(FileNotFound) {
      disk.Log(ConfigurationError);
      exitCode := 1;
    } else if fault.Some? {
      disk.Log(FatalError);
      if exitCode == 0 {
        exitCode := 4;
      }
    }
    disk.Log(Finished);
  }

  /** The names of the successful files among log entries, in order. */
  function ParsedName(e: LogEntry): Option<string> {
    if e.Parsed? then Some(e.filename) else None
  }

  function ParsedNames(entries: seq<LogEntry>): seq<string> {
    FilterMap(entries, ParsedName)
  }

  /** A log entry of the loop: a success or a failure of an eligible listed file. */
  predicate FromListing(e: LogEntry, names: seq<string>, parsed: set<string>) {
    (e.Parsed? || e.Failed?) && e.filename in names && Eligible(e.filename, parsed)
  }

  /** The test of the two `continue` statements, as a filter. */
  function IsEligible(parsed: set<string>): string -> bool {
    n => Eligible(n, parsed)
  }

  /**
   * Only eligible files are touched: looping over the listing is looping
   * over its `.html` names that are not in the ledger, so any other name
   * changes no output, ledger line or log entry.
   */
  lemma {:induction false} LoopFilter(w: World, parsed: set<string>, html: Option<string>, names: seq<string>, env: Env, build: Builder)
    ensures Loop(w, parsed, html, names, env, build)
      == Loop(w, parsed, html, Filter(names, IsEligible(parsed)), env, build)
    decreases |names|
  {
    var p := IsEligible(parsed);
    if names != [] {
      var rest := names[1..];
      assert names == [names[0]] + rest;
      FilterAppend([names[0]], rest, p);
      assert [names[0]][..0] == [];
      assert Filter([names[0]], p) == Filter([], p) + (if p(names[0]) then [names[0]] else []);
      if p(names[0]) {
        var kept := Filter(names, p);
        assert kept[0] == names[0] && kept[1..] == Filter(rest, p);
        var o := Attempt(w, html, names[0], env, build);
        LoopFilter(o.world, parsed, o.html, rest, env, build);
      } else {
        assert Filter(names, p) == Filter(rest, p);
        LoopFilter(w, parsed, html, rest, env, build);
      }
    } else {
      assert Filter(names, p) == [];
    }
  }

  /** The log of the loop only grows, and only by entries for eligible listed files. */
  lemma {:induction false} LoopLogGrows(w: World, parsed: set<string>, html: Option<string>, names: seq<string>, env: Env, build: Builder)
    ensures var w' := Loop(w, parsed, html, names, env, build).0;
      && w.log <= w'.log
      && forall i :: |w.log| <= i < |w'.log| ==> FromListing(w'.log[i], names, parsed)
    decreases |names|
  {
    if names != [] {
      var rest := names[1..];
      var w' := Loop(w, parsed, html, names, env, build).0;
      assert forall x :: x in rest ==> x in names;
      if !Eligible(names[0], parsed) {
        LoopLogGrows(w, parsed, html, rest, env, build);
      } else {
        var o := Attempt(w, html, names[0], env, build);
        if o.fault.None? {
          LoopLogGrows(o.world, parsed, o.html, rest, env, build);
          PrefixTransitive(w.log, o.world.log, w'.log);
          assert w'.log[|w.log|] == Parsed(names[0]);
        }
      }
    }
  }

  /** Every new entry of the loop but the last is a success entry. */
  lemma {:induction false} LoopLogParsed(w: World, parsed: set<string>, html: Option<string>, names: seq<string>, env: Env, build: Builder)
    ensures var w' := Loop(w, parsed, html, names, env, build).0;
      |w.log| <= |w'.log| && forall i :: |w.log| <= i < |w'.log| - 1 ==> w'.log[i].Parsed?
    decreases |names|
  {
    LoopLogGrows(w, parsed, html, names, env, build);
    if names != [] {
      var rest := names[1..];
      if !Eligible(names[0], parsed) {
        LoopLogParsed(w, parsed, html, rest, env, build);
      } else {
        var o := Attempt(w, html, names[0], env, build);
        if o.fault.None? {
          LoopLogParsed(o.world, parsed, o.html, rest, env, build);
          LoopLogGrows(o.world, parsed, o.html, rest, env, build);
          var w' := Loop(w, parsed, html, names, env, build).0;
          assert w'.log[|w.log|] == Parsed(names[0]);
        }
      }
    }
  }

  /** The loop stopped at a failure exactly when its last new entry is a failure entry. */
  lemma {:induction false} LoopLogEnds(w: World, parsed: set<string>, html: Option<string>, names: seq<string>, env: Env, build: Builder)
    ensures var r := Loop(w, parsed, html, names, env, build);
      r.1.Some? <==> |r.0.log| > |w.log| && r.0.log[|r.0.log| - 1].Failed?
    decreases |names|
  {
    if names != [] {
      var rest := names[1..];
      if !Eligible(names[0], parsed) {
        LoopLogEnds(w, parsed, html, rest, env, build);
      } else {
        var o := Attempt(w, html, names[0], env, build);
        if o.fault.None? {
          var r := Loop(o.world, parsed, o.html, rest, env, build);
          assert r == Loop(w, parsed, html, names, env, build);
          LoopLogEnds(o.world, parsed, o.html, rest, env, build);
          LastParsed(w.log, o.world.log, r.0.log, names[0], r.1.Some?);
        }
      }
    }
  }

  /** After a success entry, the log ends with a failure entry exactly when the later entries do. */
  lemma LastParsed(log0: seq<LogEntry>, log1: seq<LogEntry>, log2: seq<LogEntry>, name: string, failed: bool)
    requires log1 == log0 + [Parsed(name)]
    requires |log1| <= |log2| && log2[..|log1|] == log1
    requires failed <==> |log2| > |log1| && log2[|log2| - 1].Failed?
    ensures failed <==> |log2| > |log0| && log2[|log2| - 1].Failed?
  {
    if |log2| == |log1| {
      assert log2[|log2| - 1] == log1[|log1| - 1];
    }
  }

  /** The ledger gains exactly one line per success entry of the loop, in order. */
  lemma {:induction false} LoopLedger(w: World, parsed: set<string>, html: Option<string>, names: seq<string>, env: Env, build: Builder)
    ensures var (w', f) := Loop(w, parsed, html, names, env, build);
      |w.log| <= |w'.log| && w'.ledger == w.ledger + Entries(ParsedNames(w'.log[|w.log|..]))
    decreases |names|
  {
    var (w', f) := Loop(w, parsed, html, names, env, build);
    if names == [] {
      assert w'.log[|w.log|..] == [];
      assert w.ledger + Entries([]) == w.ledger;
    } else {
      var rest := names[1..];
      if !Eligible(names[0], parsed) {
        LoopLedger(w, parsed, html, rest, env, build);
      } else {
        var o := Attempt(w, html, names[0], env, build);
        if o.fault.Some? {
          FailureStep(w, w', Failed(names[0], Snippet(o.html)));
        } else {
          LoopLedger(o.world, parsed, o.html, rest, env, build);
          LedgerStep(w, o.world, w', names[0]);
        }
      }
    }
  }

  /** A failure entry adds nothing to the ledger. */
  lemma FailureStep(w: World, w': World, e: LogEntry)
    requires e.Failed? && w'.ledger == w.ledger && w'.log == w.log + [e]
    ensures w'.ledger == w.ledger + Entries(ParsedNames(w'.log[|w.log|..]))
  {
    assert w'.log[|w.log|..] == [e];
    FilterMapSnoc([], e, ParsedName);
    assert [] + [e] == [e];
    assert ParsedNames(w'.log[|w.log|..]) == [];
  }

  /** A success adds its line before the lines of the later successes. */
  lemma LedgerStep(w: World, mid: World, w': World, name: string)
    requires mid.ledger == w.ledger + name + "\n" && mid.log == w.log + [Parsed(name)]
    requires |mid.log| <= |w'.log| && w'.log[..|mid.log|] == mid.log
    requires w'.ledger == mid.ledger + Entries(ParsedNames(w'.log[|mid.log|..]))
    ensures w'.ledger == w.ledger + Entries(ParsedNames(w'.log[|w.log|..]))
  {
    SuccessStep(w.log, mid.log, w'.log, name);
    var later := ParsedNames(w'.log[|mid.log|..]);
    EntriesCons(name, later);
    assert w'.ledger == (w.ledger + name + "\n") + Entries(later);
  }

  /** A success entry followed by later entries contributes its name first. */
  lemma SuccessStep(log0: seq<LogEntry>, log1: seq<LogEntry>, log2: seq<LogEntry>, name: string)
    requires log1 == log0 + [Parsed(name)] && log1 <= log2
    ensures ParsedNames(log2[|log0|..]) == [name] + ParsedNames(log2[|log1|..])
  {
    assert log2[|log0|..] == [Parsed(name)] + log2[|log1|..];
    FilterMapAppend([Parsed(name)], log2[|log1|..], ParsedName);
    FilterMapSnoc([], Parsed(name), ParsedName);
    assert [] + [Parsed(name)] == [Parsed(name)];
  }

  /** The ledger text of a leading name and the rest. */
  lemma {:induction false} EntriesCons(name: string, names: seq<string>)
    ensures Entries([name] + names) == name + "\n" + Entries(names)
    decreases |names|
  {
    if names == [] {
      assert [name] + names == [name];
      assert Entries([name]) == Entries([]) + name + "\n";
    } else {
      var init := names[..|names| - 1];
      var last := names[|names| - 1];
      assert ([name] + names)[..|names|] == [name] + init;
      EntriesCons(name, init);
    }
  }

  /**
   * Outputs only gain keys, and an output changes only for the JSON name
   * of an eligible listed file.
   */
  lemma {:induction false} LoopOutputs(w: World, parsed: set<string>, html: Option<string>, names: seq<string>, env: Env, build: Builder)
    ensures var w' := Loop(w, parsed, html, names, env, build).0;
      && (forall k :: k in w.outputs ==> k in w'.outputs)
      && forall k :: k in w'.outputs && (k !in w.outputs || w'.outputs[k] != w.outputs[k]) ==>
           exists n :: n in names && Eligible(n, parsed) && k == JsonName(n)
    decreases |names|
  {
    if names != [] {
      var rest := names[1..];
      assert forall x :: x in rest ==> x in names;
      if !Eligible(names[0], parsed) {
        LoopOutputs(w, parsed, html, rest, env, build);
      } else {
        var o := Attempt(w, html, names[0], env, build);
        var w' := Loop(w, parsed, html, names, env, build).0;
        if o.fault.None? {
          LoopOutputs(o.world, parsed, o.html, rest, env, build);
          assert w' == Loop(o.world, parsed, o.html, rest, env, build).0;
        } else {
          assert w'.outputs == o.world.outputs;
        }
        OutputsStep(w.outputs, o.world.outputs, w'.outputs, names, parsed);
      }
    }
  }

  /** One eligible file changes at most its own output; the later files change theirs. */
  lemma OutputsStep(m0: map<string, Record>, m1: map<string, Record>, m2: map<string, Record>, names: seq<string>, parsed: set<string>)
    requires names != [] && Eligible(names[0], parsed)
    requires forall k :: k in m0 ==> k in m1
    requires forall k :: k in m1 && (k !in m0 || m1[k] != m0[k]) ==> k == JsonName(names[0])
    requires forall k :: k in m1 ==> k in m2
    requires forall k :: k in m2 && (k !in m1 || m2[k] != m1[k]) ==>
      exists n :: n in names[1..] && Eligible(n, parsed) && k == JsonName(n)
    ensures forall k :: k in m0 ==> k in m2
    ensures forall k :: k in m2 && (k !in m0 || m2[k] != m0[k]) ==>
      exists n :: n in names && Eligible(n, parsed) && k == JsonName(n)
  {
    assert forall x :: x in names[1..] ==> x in names;
    forall k | k in m2 && (k !in m0 || m2[k] != m0[k])
      ensures exists n :: n in names && Eligible(n, parsed) && k == JsonName(n)
    {
      if k == JsonName(names[0]) {
        assert names[0] in names;
      }
    }
  }

  /** Every step for the file succeeds: its read, its parse, the write of its output and the append to the ledger. */
  predicate Succeeds(env: Env, name: string) {
    && env.read(name).Success?
    && env.soup(env.read(name).value).Success?
    && env.writeFault(JsonName(name)).None?
    && env.appendFault(name).None?
  }

  /**
   * Every file the loop records in the ledger was read, parsed and written
   * without a fault, and has its output: the output is written before the
   * ledger line is appended, and nothing removes it.
   */
  lemma {:induction false} LoopLedgerBacked(w: World, parsed: set<string>, html: Option<string>, names: seq<string>, env: Env, build: Builder)
    ensures var w' := Loop(w, parsed, html, names, env, build).0;
      |w.log| <= |w'.log| && forall n :: n in ParsedNames(w'.log[|w.log|..]) ==> Succeeds(env, n) && JsonName(n) in w'.outputs
    decreases |names|
  {
    LoopLogGrows(w, parsed, html, names, env, build);
    var w' := Loop(w, parsed, html, names, env, build).0;
    if names == [] {
      assert w'.log[|w.log|..] == [];
    } else {
      var rest := names[1..];
      if !Eligible(names[0], parsed) {
        LoopLedgerBacked(w, parsed, html, rest, env, build);
      } else {
        var o := Attempt(w, html, names[0], env, build);
        if o.fault.Some? {
          var failed := Failed(names[0], Snippet(o.html));
          assert w'.log[|w.log|..] == [failed];
          FilterMapSnoc([], failed, ParsedName);
          assert [] + [failed] == [failed];
        } else {
          LoopLedgerBacked(o.world, parsed, o.html, rest, env, build);
          LoopLogGrows(o.world, parsed, o.html, rest, env, build);
          LoopOutputs(o.world, parsed, o.html, rest, env, build);
          SuccessStep(w.log, o.world.log, w'.log, names[0]);
        }
      }
    }
  }

  /** Fail-fast: once a prefix of the listing stops the loop, the rest of the listing is never looked at. */
  lemma {:induction false} FailFast(w: World, parsed: set<string>, html: Option<string>, names: seq<string>, more: seq<string>, env: Env, build: Builder)
    requires Loop(w, parsed, html, names, env, build).1.Some?
    ensures Loop(w, parsed, html, names + more, env, build) == Loop(w, parsed, html, names, env, build)
    decreases |names|
  {
    assert names != [];
    assert (names + more)[0] == names[0] && (names + more)[1..] == names[1..] + more;
    if !Eligible(names[0], parsed) {
      FailFast(w, parsed, html, names[1..], more, env, build);
    } else {
      var o := Attempt(w, html, names[0], env, build);
      if o.fault.None? {
        FailFast(o.world, parsed, o.html, names[1..], more, env, build);
      }
    }
  }

  /** A loop that is not stopped records every eligible listed file. */
  lemma {:induction false} LoopComplete(w: World, parsed: set<string>, html: Option<string>, names: seq<string>, env: Env, build: Builder)
    requires Loop(w, parsed, html, names, env, build).1.None?
    ensures var w' := Loop(w, parsed, html, names, env, build).0;
      |w.log| <= |w'.log| && forall n :: n in names && Eligible(n, parsed) ==> n in ParsedNames(w'.log[|w.log|..])
    decreases |names|
  {
    LoopLogGrows(w, parsed, html, names, env, build);
    var w' := Loop(w, parsed, html, names, env, build).0;
    if names != [] {
      var rest := names[1..];
      assert forall n :: n in names ==> n == names[0] || n in rest;
      if !Eligible(names[0], parsed) {
        LoopComplete(w, parsed, html, rest, env, build);
      } else {
        var o := Attempt(w, html, names[0], env, build);
        LoopComplete(o.world, parsed, o.html, rest, env, build);
        LoopLogGrows(o.world, parsed, o.html, rest, env, build);
        SuccessStep(w.log, o.world.log, w'.log, names[0]);
      }
    }
  }

  /** A listing with no eligible name changes nothing. */
  lemma {:induction false} LoopSkipsAll(w: World, parsed: set<string>, html: Option<string>, names: seq<string>, env: Env, build: Builder)
    requires forall n :: n in names ==> !Eligible(n, parsed)
    ensures Loop(w, parsed, html, names, env, build) == (w, None)
    decreases |names|
  {
    if names != [] {
      assert forall n :: n in names[1..] ==> n in names;
      LoopSkipsAll(w, parsed, html, names[1..], env, build);
    }
  }

  /** An eligible file whose read succeeds: its text is then held in `html`. */
  predicate ReadOk(name: string, parsed: set<string>, env: Env) {
    Eligible(name, parsed) && env.read(name).Success?
  }

  /** The text of the last eligible name in `names` whose read succeeds, or `html` when there is none. */
  function LastRead(html: Option<string>, names: seq<string>, parsed: set<string>, env: Env): Option<string>
    decreases |names|
  {
    if names == [] then html
    else if ReadOk(names[|names| - 1], parsed, env) then Some(env.read(names[|names| - 1]).value)
    else LastRead(html, names[..|names| - 1], parsed, env)
  }

  /** Reading the first name and then the rest gives the same last text. */
  lemma {:induction false} LastReadCons(html: Option<string>, name: string, rest: seq<string>, parsed: set<string>, env: Env)
    ensures LastRead(html, [name] + rest, parsed, env)
      == LastRead(if ReadOk(name, parsed, env) then Some(env.read(name).value) else html, rest, parsed, env)
    decreases |rest|
  {
    var all := [name] + rest;
    if rest == [] {
      assert all[..0] == [];
    } else {
      assert all[|all| - 1] == rest[|rest| - 1];
      assert all[..|all| - 1] == [name] + rest[..|rest| - 1];
      LastReadCons(html, name, rest[..|rest| - 1], parsed, env);
    }
  }

  /**
   * The failure entry's snippet, as `'html' in locals()` decides it: the
   * loop stopped at an eligible name `names[k]`, the names before it did
   * not stop it, and the snippet is taken from the last text read up to
   * and including that name, which may be an earlier file's, or from the
   * incoming `html` when none was read.
   */
  lemma {:induction false} LoopSnippet(w: World, parsed: set<string>, html: Option<string>, names: seq<string>, env: Env, build: Builder)
    requires Loop(w, parsed, html, names, env, build).1.Some?
    ensures exists k :: 0 <= k < |names| && FailedAt(w, parsed, html, names, k, env, build)
    decreases |names|
  {
    var w' := Loop(w, parsed, html, names, env, build).0;
    var rest := names[1..];
    var o := Attempt(w, html, names[0], env, build);
    if Eligible(names[0], parsed) && o.fault.Some? {
      LastReadCons(html, names[0], [], parsed, env);
      assert names[..0] == [] && names[..1] == [names[0]] + [];
      assert FailedAt(w, parsed, html, names, 0, env, build);
    } else {
      var mid := if Eligible(names[0], parsed) then o.world else w;
      var midHtml := if Eligible(names[0], parsed) then o.html else html;
      assert names == [names[0]] + rest;
      LoopCons(w, parsed, html, names[0], rest, env, build);
      LoopSnippet(mid, parsed, midHtml, rest, env, build);
      var k :| 0 <= k < |rest| && FailedAt(mid, parsed, midHtml, rest, k, env, build);
      assert names[..k + 1] == [names[0]] + rest[..k];
      LoopCons(w, parsed, html, names[0], rest[..k], env, build);
      SnippetStep(w, mid, parsed, html, midHtml, names, k, env, build);
    }
  }

  /** A first name that does not stop the loop hands the rest on with its world and last text. */
  lemma LoopCons(w: World, parsed: set<string>, html: Option<string>, name: string, more: seq<string>, env: Env, build: Builder)
    requires Eligible(name, parsed) ==> Attempt(w, html, name, env, build).fault.None?
    ensures var o := Attempt(w, html, name, env, build);
      Loop(w, parsed, html, [name] + more, env, build)
        == Loop(if Eligible(name, parsed) then o.world else w, parsed,
                if Eligible(name, parsed) then o.html else html, more, env, build)
  {
    assert ([name] + more)[0] == name && ([name] + more)[1..] == more;
  }

  /** A failure at `names[k + 1]` after a first name that did not stop the loop. */
  lemma SnippetStep(w: World, mid: World, parsed: set<string>, html: Option<string>, midHtml: Option<string>,
                    names: seq<string>, k: int, env: Env, build: Builder)
    requires names != [] && 0 <= k < |names| - 1
    requires midHtml == if ReadOk(names[0], parsed, env) then Some(env.read(names[0]).value) else html
    requires Loop(w, parsed, html, names, env, build) == Loop(mid, parsed, midHtml, names[1..], env, build)
    requires Loop(w, parsed, html, names[..k + 1], env, build) == Loop(mid, parsed, midHtml, names[1..][..k], env, build)
    requires FailedAt(mid, parsed, midHtml, names[1..], k, env, build)
    ensures FailedAt(w, parsed, html, names, k + 1, env, build)
  {
    var rest := names[1..];
    assert names[..k + 2] == [names[0]] + rest[..k + 1];
    LastReadCons(html, names[0], rest[..k + 1], parsed, env);
  }

  /**
   * The loop over `names` ended with a failure entry for `names[k]`: the
   * names before it did not stop the loop, and its snippet is that of the
   * last text read up to and including `names[k]`.
   */
  predicate FailedAt(w: World, parsed: set<string>, html: Option<string>, names: seq<string>, k: int, env: Env, build: Builder)
    requires 0 <= k < |names|
  {
    var w' := Loop(w, parsed, html, names, env, build).0;
    && Eligible(names[k], parsed)
    && Loop(w, parsed, html, names[..k], env, build).1.None?
    && |w'.log| > 0
    && w'.log[|w'.log| - 1] == Failed(names[k], Snippet(LastRead(html, names[..k + 1], parsed, env)))
  }

  /** A failure entry for some file. */
  predicate HasFailure(entries: seq<LogEntry>) {
    exists i :: 0 <= i < |entries| && entries[i].Failed?
  }

  /** The entries of the loop are success and failure entries only. */
  predicate FileEntries(entries: seq<LogEntry>) {
    forall i :: 0 <= i < |entries| ==> entries[i].Parsed? || entries[i].Failed?
  }

  /**
   * The log of a run: "Started", the loop's file entries, at most one
   * handler entry, and "Finished"; the loop stopped exactly when a
   * failure entry is among them.
   */
  lemma RunLog(w: World, listing: Result<seq<string>, Fault>, env: Env)
    ensures var (w', code) := RunSpec(w, listing, env);
      exists entries, tail ::
        && w'.log == w.log + [Started] + entries + tail + [Finished]
        && FileEntries(entries)
        && (listing.Failure? ==> entries == [])
        && (HasFailure(entries) <==> listing.Success? && Loop(w.(log := w.log + [Started]), Names(w.ledger), None, listing.value, env, RecordOf).1.Some?)
        && (tail == [] || tail == [ConfigurationError] || tail == [FatalError])
        && (HasFailure(entries) ==> tail != [])
        && (code == 0 <==> tail == [])
        && (code == 1 <==> tail == [ConfigurationError])
        && (code == 3 <==> tail == [FatalError] && HasFailure(entries))
        && (code == 4 <==> tail == [FatalError] && !HasFailure(entries))
  {
    var started := w.(log := w.log + [Started]);
    var (w', code) := RunSpec(w, listing, env);
    if listing.Failure? {
      var tail := if listing.error == FileNotFound then [ConfigurationError] else [FatalError];
      assert w'.log == w.log + [Started] + [] + tail + [Finished];
    } else {
      var (after, f) := Loop(started, Names(w.ledger), None, listing.value, env, RecordOf);
      LoopEntries(started, Names(w.ledger), None, listing.value, env, RecordOf);
      var entries := after.log[|started.log|..];
      var tail := if f == Some(FileNotFound) then [ConfigurationError] else if f.Some? then [FatalError] else [];
      assert w'.log == w.log + [Started] + entries + tail + [Finished];
    }
  }

  /** The loop's new entries are file entries, with a failure among them exactly when the loop stopped. */
  lemma LoopEntries(w: World, parsed: set<string>, html: Option<string>, names: seq<string>, env: Env, build: Builder)
    ensures var (w', f) := Loop(w, parsed, html, names, env, build);
      var entries := w'.log[|w.log|..];
      && w'.log == w.log + entries
      && FileEntries(entries)
      && (HasFailure(entries) <==> f.Some?)
  {
    var r := Loop(w, parsed, html, names, env, build);
    LoopLogGrows(w, parsed, html, names, env, build);
    LoopLogParsed(w, parsed, html, names, env, build);
    LoopLogEnds(w, parsed, html, names, env, build);
    var log1 := r.0.log;
    forall i | |w.log| <= i < |log1|
      ensures log1[i].Parsed? || log1[i].Failed?
    {
      assert FromListing(log1[i], names, parsed);
    }
    EntriesOf(w.log, log1, r.1.Some?);
  }

  /** New entries that are file entries, all successes but perhaps the last. */
  lemma EntriesOf(log0: seq<LogEntry>, log1: seq<LogEntry>, failed: bool)
    requires |log0| <= |log1| && log1[..|log0|] == log0
    requires forall i :: |log0| <= i < |log1| ==> log1[i].Parsed? || log1[i].Failed?
    requires forall i :: |log0| <= i < |log1| - 1 ==> log1[i].Parsed?
    requires failed <==> |log1| > |log0| && log1[|log1| - 1].Failed?
    ensures log1 == log0 + log1[|log0|..]
    ensures FileEntries(log1[|log0|..]) && (HasFailure(log1[|log0|..]) <==> failed)
  {
    var entries := log1[|log0|..];
    assert log1 == log0 + entries;
    forall i | 0 <= i < |entries|
      ensures (entries[i].Parsed? || entries[i].Failed?) && (i < |entries| - 1 ==> entries[i].Parsed?)
    {
      assert entries[i] == log1[|log0| + i];
    }
    if failed {
      assert entries[|entries| - 1].Failed?;
    }
  }

  /**
   * The exit status, read off the run's log: 0 when nothing went wrong,
   * 1 for a configuration error (a missing file, raised by the listing or
   * re-raised from a file, even after a file failure), 3 when a file failed
   * for another reason and 4 when the listing itself raised another error.
   */
  lemma ExitCodeRules(w: World, listing: Result<seq<string>, Fault>, env: Env)
    ensures var (w', code) := RunSpec(w, listing, env);
      var run := w'.log[|w.log|..];
      && w.log <= w'.log
      && run[0] == Started && run[|run| - 1] == Finished
      && (code == 0 || code == 1 || code == 3 || code == 4)
      && (code == 0 <==> ConfigurationError !in run && FatalError !in run && !HasFailure(run))
      && (code == 1 <==> ConfigurationError in run)
      && (code == 3 <==> FatalError in run && HasFailure(run))
      && (code == 4 <==> FatalError in run && !HasFailure(run))
  {
    RunLog(w, listing, env);
    var (w', code) := RunSpec(w, listing, env);
    var entries: seq<LogEntry>, tail: seq<LogEntry> :|
      && w'.log == w.log + [Started] + entries + tail + [Finished]
      && FileEntries(entries)
      && (tail == [] || tail == [ConfigurationError] || tail == [FatalError])
      && (HasFailure(entries) ==> tail != [])
      && (code == 0 <==> tail == [])
      && (code == 1 <==> tail == [ConfigurationError])
      && (code == 3 <==> tail == [FatalError] && HasFailure(entries))
      && (code == 4 <==> tail == [FatalError] && !HasFailure(entries));
    var run := [Started] + entries + tail + [Finished];
    assert w'.log[|w.log|..] == run;
    CodeFromLog(entries, tail, code);
  }

  /** The exit-status rules, on a log of the shape `RunLog` gives. */
  lemma CodeFromLog(entries: seq<LogEntry>, tail: seq<LogEntry>, code: int)
    requires FileEntries(entries)
    requires tail == [] || tail == [ConfigurationError] || tail == [FatalError]
    requires HasFailure(entries) ==> tail != []
    requires code == 0 <==> tail == []
    requires code == 1 <==> tail == [ConfigurationError]
    requires code == 3 <==> tail == [FatalError] && HasFailure(entries)
    requires code == 4 <==> tail == [FatalError] && !HasFailure(entries)
    ensures var run := [Started] + entries + tail + [Finished];
      && run[0] == Started && run[|run| - 1] == Finished
      && (code == 0 || code == 1 || code == 3 || code == 4)
      && (code == 0 <==> ConfigurationError !in run && FatalError !in run && !HasFailure(run))
      && (code == 1 <==> ConfigurationError in run)
      && (code == 3 <==> FatalError in run && HasFailure(run))
      && (code == 4 <==> FatalError in run && !HasFailure(run))
  {
    RunShape(entries, tail);
  }

  /** The exception that reaches the outer handlers: the listing's, or the one that stopped the loop. */
  function RunFault(w: World, listing: Result<seq<string>, Fault>, env: Env): Option<Fault> {
    if listing.Failure? then Some(listing.error)
    else Loop(w.(log := w.log + [Started]), Names(w.ledger), None, listing.value, env, RecordOf).1
  }

  /**
   * The exit status, read off the exception: `except FileNotFoundError`
   * sets 1 whatever was set before, `except Exception` keeps the 3 a file
   * failure set and gives 4 otherwise; each handler logs its own entry
   * just before "Finished".
   */
  lemma ExitCodeFault(w: World, listing: Result<seq<string>, Fault>, env: Env)
    ensures var r := RunSpec(w, listing, env);
      var f := RunFault(w, listing, env);
      && (r.1 == 0 <==> f.None?)
      && (r.1 == 1 <==> f == Some(FileNotFound))
      && (r.1 == 3 <==> listing.Success? && f == Some(OtherError))
      && (r.1 == 4 <==> listing.Failure? && f == Some(OtherError))
      && (f == Some(FileNotFound) ==> r.0.log[|r.0.log| - 2] == ConfigurationError)
      && (f == Some(OtherError) ==> r.0.log[|r.0.log| - 2] == FatalError)
  {
  }

  /** Where each kind of entry sits in a run's log. */
  lemma RunShape(entries: seq<LogEntry>, tail: seq<LogEntry>)
    requires FileEntries(entries)
    requires tail == [] || tail == [ConfigurationError] || tail == [FatalError]
    ensures var run := [Started] + entries + tail + [Finished];
      && run[0] == Started && run[|run| - 1] == Finished
      && (HasFailure(run) <==> HasFailure(entries))
      && (ConfigurationError in run <==> tail == [ConfigurationError])
      && (FatalError in run <==> tail == [FatalError])
  {
    var run := [Started] + entries + tail + [Finished];
    if HasFailure(entries) {
      var i :| 0 <= i < |entries| && entries[i].Failed?;
      assert run[i + 1] == entries[i];
    }
    if HasFailure(run) {
      var i :| 0 <= i < |run| && run[i].Failed?;
      assert 0 < i <= |entries|;
      assert run[i] == entries[i - 1];
    }
    assert ConfigurationError !in entries && FatalError !in entries;
  }

  /** Every name among the success entries of the loop is an eligible listed name. */
  lemma LoopParsedListed(w: World, parsed: set<string>, html: Option<string>, names: seq<string>, env: Env, build: Builder)
    ensures var w' := Loop(w, parsed, html, names, env, build).0;
      forall n :: n in ParsedNames(w'.log[|w.log|..]) ==> n in names && Eligible(n, parsed)
  {
    var w' := Loop(w, parsed, html, names, env, build).0;
    LoopLogGrows(w, parsed, html, names, env, build);
    var entries := w'.log[|w.log|..];
    forall n | n in ParsedNames(entries)
      ensures n in names && Eligible(n, parsed)
    {
      FilterMapMember(entries, ParsedName, n);
      var i :| 0 <= i < |entries| && ParsedName(entries[i]) == Some(n);
      assert entries[i] == w'.log[|w.log| + i];
    }
  }

  /**
   * After a loop that was not stopped, starting from a terminated ledger,
   * every listed `.html` name whose line reads back as itself is in the
   * ledger: it was there already or the loop recorded it.
   */
  lemma LoopRecordsAll(w: World, html: Option<string>, names: seq<string>, env: Env, build: Builder)
    requires Terminated(w.ledger)
    requires forall n :: n in names && EndsWith(n, ".html") ==> Recordable(n)
    requires Loop(w, Names(w.ledger), html, names, env, build).1.None?
    ensures var w' := Loop(w, Names(w.ledger), html, names, env, build).0;
      forall n :: n in names && EndsWith(n, ".html") ==> n in Names(w'.ledger)
  {
    var parsed := Names(w.ledger);
    var w' := Loop(w, parsed, html, names, env, build).0;
    LoopLedger(w, parsed, html, names, env, build);
    LoopParsedListed(w, parsed, html, names, env, build);
    LoopComplete(w, parsed, html, names, env, build);
    var added := ParsedNames(w'.log[|w.log|..]);
    AppendAll(w.ledger, added);
  }

  /**
   * Every ledger line a run adds is for an eligible listed file whose
   * output the run wrote; a run whose listing fails adds none.
   */
  lemma RunLedgerBacked(w: World, listing: Result<seq<string>, Fault>, env: Env)
    ensures var w' := RunSpec(w, listing, env).0;
      exists added :: w'.ledger == w.ledger + Entries(added) &&
        forall n :: n in added ==>
          && listing.Success? && n in listing.value && Eligible(n, Names(w.ledger))
          && Succeeds(env, n) && JsonName(n) in w'.outputs
  {
    var w' := RunSpec(w, listing, env).0;
    if listing.Failure? {
      assert w'.ledger == w.ledger + Entries([]);
    } else {
      var started := w.(log := w.log + [Started]);
      var parsed := Names(w.ledger);
      var after := Loop(started, parsed, None, listing.value, env, RecordOf).0;
      LoopLedger(started, parsed, None, listing.value, env, RecordOf);
      LoopParsedListed(started, parsed, None, listing.value, env, RecordOf);
      LoopLedgerBacked(started, parsed, None, listing.value, env, RecordOf);
      var added := ParsedNames(after.log[|started.log|..]);
      assert w'.ledger == after.ledger && w'.outputs == after.outputs;
    }
  }

  /**
   * A second run over the same listing after a run that exited with 0
   * processes no file: it logs only its start and end and changes no
   * output and no ledger line, whatever the environment does. This needs
   * a ledger that ends with a complete line, and `.html` names whose
   * ledger line reads back as the name (no line breaks, no white space at
   * either end).
   */
  lemma SecondRunIsNoOp(w: World, names: seq<string>, env: Env, env': Env)
    requires Terminated(w.ledger)
    requires forall n :: n in names && EndsWith(n, ".html") ==> Recordable(n)
    requires RunSpec(w, Success(names), env).1 == 0
    ensures var w1 := RunSpec(w, Success(names), env).0;
      RunSpec(w1, Success(names), env') == (w1.(log := w1.log + [Started, Finished]), 0)
  {
    var started := w.(log := w.log + [Started]);
    var (after, f) := Loop(started, Names(w.ledger), None, names, env, RecordOf);
    assert f.None?;
    LoopRecordsAll(started, None, names, env, RecordOf);
    var w1 := RunSpec(w, Success(names), env).0;
    assert w1 == after.(log := after.log + [Finished]);
    var started' := w1.(log := w1.log + [Started]);
    assert forall n :: n in names ==> !Eligible(n, Names(w1.ledger));
    LoopSkipsAll(started', Names(w1.ledger), None, names, env', RecordOf);
    assert w1.log + [Started] + [Finished] == w1.log + [Started, Finished];
  }
}
