/**
 * The loop of parse_2.py (lines 9-102): every listed `.html` file becomes
 * one JSON file named after its stem. There is no ledger and no exception
 * handling: the first exception ends the script, leaving the outputs
 * written so far.
 */
module Parse2Driver {
  import opened Wrappers
  import opened Text
  import opened JsonValue
  import opened Parse2Record
  import opened Storage

  /** Reading a file, parsing it and running the selectors, and writing an output; each may raise. */
  datatype Env2 = Env2(
    read: string -> Result<string, Fault>,  // open + f.read() of the input file
    soup: string -> Result<Page2, Fault>,   // BeautifulSoup and the selectors, on the HTML text
    writeFault: string -> Option<Fault>)    // open(json_putanja, "w") + json.dump, by output name

  /** How a file name and its page become a record; parse_2.py uses `PodaciOf`. */
  type Builder2 = (string, Page2) -> Record

  /** Reading and parsing `name` succeed. */
  predicate Extracts(env: Env2, name: string) {
    env.read(name).Success? && env.soup(env.read(name).value).Success?
  }

  /** The `for` loop over the rest of the listing: the outputs, and the exception that ended the script, if any. */
  function Loop2(outputs: map<string, Record>, names: seq<string>, env: Env2, build: Builder2)
    : (map<string, Record>, Option<Fault>)
    decreases |names|
  {
    if names == [] then (outputs, None)
    else
      var name := names[0];
      if !EndsWith(name, ".html") then Loop2(outputs, names[1..], env, build)
      else
        match env.read(name)
        case Failure(f) => (outputs, Some(f))
        case Success(text) =>
          match env.soup(text)
          case Failure(f) => (outputs, Some(f))
          case Success(page) =>
            var out := JsonName(name);
            if env.writeFault(out).Some? then (outputs, env.writeFault(out))
            else Loop2(outputs[out := build(name, page)], names[1..], env, build)
  }

  /** A whole run of parse_2.py; `listing` is what `os.listdir` returns or raises. */
  function Run2Spec(outputs: map<string, Record>, listing: Result<seq<string>, Fault>, env: Env2)
    : (map<string, Record>, Option<Fault>)
  {
    match listing
    case Failure(f) => (outputs, Some(f))
    case Success(names) => Loop2(outputs, names, env, PodaciOf)
  }

  /** parse_2.py lines 9-102 on the disk; `crash` is the exception that ended the script. */
  method Run2(disk: Disk, listing: Result<seq<string>, Fault>, env: Env2) returns (crash: Option<Fault>)
    modifies disk
    ensures disk.ledger == old(disk.ledger) && disk.log == old(disk.log)
    ensures (disk.outputs, crash) == Run2Spec(old(disk.outputs), listing, env)
  {
    if listing.Failure? {
      return Some(listing.error);
    }
    crash := None;
    var names := listing.value;
    ghost var total := Loop2(disk.outputs, names, env, PodaciOf);
    var i := 0;
    while i < |names|
      invariant 0 <= i <= |names|
      invariant Loop2(disk.outputs, names[i..], env, PodaciOf) == total
      invariant disk.ledger == old(disk.ledger) && disk.log == old(disk.log)
      invariant crash.None?
    {
      var filename := names[i];
      assert names[i..][1..] == names[i + 1..];
      if !EndsWith(filename, ".html") {
        i := i + 1;
        continue;
      }
      var read := env.read(filename);
      if read.Failure? {
        crash := Some(read.error);
        break;
      }
      var soup := env.soup(read.value);
      if soup.Failure? {
        crash := Some(soup.error);
        break;
      }
      var podaci := BuildPodaci(filename, soup.value);
      var jsonIme := JsonName(filename);
      crash := env.writeFault(jsonIme);
      if crash.Some? {
        break;
      }
      disk.Write(jsonIme, podaci);
      i := i + 1;
    }
    assert (disk.outputs, crash) == total;
  }

  /**
   * Outputs only gain keys, and an output changes only for the JSON name
   * of a listed `.html` file.
   */
  lemma {:induction false} Loop2Frame(outputs: map<string, Record>, names: seq<string>, env: Env2, build: Builder2)
    ensures var r := Loop2(outputs, names, env, build).0;
      && (forall k :: k in outputs ==> k in r)
      && forall k :: k in r && (k !in outputs || r[k] != outputs[k]) ==>
           exists n :: n in names && EndsWith(n, ".html") && k == JsonName(n)
    decreases |names|
  {
    if names != [] {
      var name, rest := names[0], names[1..];
      assert forall x :: x in rest ==> x in names;
      if !EndsWith(name, ".html") {
        Loop2Frame(outputs, rest, env, build);
      } else if Extracts(env, name) && env.writeFault(JsonName(name)).None? {
        var written := outputs[JsonName(name) := build(name, env.soup(env.read(name).value).value)];
        Loop2Frame(written, rest, env, build);
        assert Loop2(outputs, names, env, build) == Loop2(written, rest, env, build);
        var r := Loop2(outputs, names, env, build).0;
        assert forall k :: k in outputs ==> k in written;
        forall k | k in r && (k !in outputs || r[k] != outputs[k])
          ensures exists n :: n in names && EndsWith(n, ".html") && k == JsonName(n)
        {
          if k != JsonName(name) {
            assert k !in written || r[k] != written[k];
          }
        }
      } else {
        assert Loop2(outputs, names, env, build).0 == outputs;
      }
    }
  }

  /** A run that ends normally wrote an output for every listed `.html` file, each of which could be read and parsed. */
  lemma {:induction false} Loop2Covers(outputs: map<string, Record>, names: seq<string>, env: Env2, build: Builder2)
    requires Loop2(outputs, names, env, build).1.None?
    ensures forall n :: n in names && EndsWith(n, ".html") ==>
      Extracts(env, n) && env.writeFault(JsonName(n)).None? && JsonName(n) in Loop2(outputs, names, env, build).0
    decreases |names|
  {
    if names != [] {
      var name, rest := names[0], names[1..];
      assert forall n :: n in names ==> n == name || n in rest;
      if !EndsWith(name, ".html") {
        Loop2Covers(outputs, rest, env, build);
      } else {
        var written := outputs[JsonName(name) := build(name, env.soup(env.read(name).value).value)];
        Loop2Covers(written, rest, env, build);
        Loop2Frame(written, rest, env, build);
      }
    }
  }

  /**
   * When no other listed `.html` name shares its JSON name, the output of
   * a file is its own record: no later file overwrites it.
   */
  lemma {:induction false} Loop2Values(outputs: map<string, Record>, names: seq<string>, env: Env2, build: Builder2, n: string)
    requires Loop2(outputs, names, env, build).1.None?
    requires forall m :: m in names && EndsWith(m, ".html") && JsonName(m) == JsonName(n) ==> m == n
    requires n in names && EndsWith(n, ".html")
    ensures Extracts(env, n) && JsonName(n) in Loop2(outputs, names, env, build).0
    ensures Loop2(outputs, names, env, build).0[JsonName(n)] == build(n, env.soup(env.read(n).value).value)
    decreases |names|
  {
    Loop2Covers(outputs, names, env, build);
    var name, rest := names[0], names[1..];
    assert forall m :: m in rest ==> m in names;
    if !EndsWith(name, ".html") {
      Loop2Values(outputs, rest, env, build, n);
    } else {
      var written := outputs[JsonName(name) := build(name, env.soup(env.read(name).value).value)];
      if n in rest {
        Loop2Values(written, rest, env, build, n);
      } else {
        assert n == name;
        Loop2Frame(written, rest, env, build);
        var k := JsonName(n);
        assert forall m :: m in rest && EndsWith(m, ".html") ==> JsonName(m) != k;
        assert !exists m :: m in rest && EndsWith(m, ".html") && k == JsonName(m);
        assert k in written;
        var r := Loop2(written, rest, env, build).0;
        assert k in r && r[k] == written[k];
      }
    }
  }

  /** Fail-fast: once a prefix of the listing ends the script, the rest of the listing is never looked at. */
  lemma {:induction false} Loop2FailFast(outputs: map<string, Record>, names: seq<string>, more: seq<string>, env: Env2, build: Builder2)
    requires Loop2(outputs, names, env, build).1.Some?
    ensures Loop2(outputs, names + more, env, build) == Loop2(outputs, names, env, build)
    decreases |names|
  {
    assert names != [];
    assert (names + more)[0] == names[0] && (names + more)[1..] == names[1..] + more;
    var name := names[0];
    if !EndsWith(name, ".html") {
      Loop2FailFast(outputs, names[1..], more, env, build);
    } else if Extracts(env, name) && env.writeFault(JsonName(name)).None? {
      var written := outputs[JsonName(name) := build(name, env.soup(env.read(name).value).value)];
      Loop2FailFast(written, names[1..], more, env, build);
    }
  }

  /**
   * A run of parse_2.py that ends normally leaves, for every listed
   * `.html` file, the record `PodaciOf` builds from its page under its
   * JSON name, provided no other listed `.html` name shares that name.
   */
  lemma Run2Records(outputs: map<string, Record>, names: seq<string>, env: Env2, n: string)
    requires Run2Spec(outputs, Success(names), env).1.None?
    requires forall m :: m in names && EndsWith(m, ".html") && JsonName(m) == JsonName(n) ==> m == n
    requires n in names && EndsWith(n, ".html")
    ensures Extracts(env, n) && JsonName(n) in Run2Spec(outputs, Success(names), env).0
    ensures Run2Spec(outputs, Success(names), env).0[JsonName(n)] == PodaciOf(n, env.soup(env.read(n).value).value)
  {
    Loop2Values(outputs, names, env, PodaciOf, n);
  }
}
