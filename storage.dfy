/**
 * What the scripts change on disk: the ledger file `backend/parsed.log`,
 * the JSON files under `backend/json` (name -> record) and the info and
 * error logs under `backend/logs`, kept here as one sequence of entries.
 */
module Storage {
  import opened JsonValue

  /** The only distinction between exceptions that the exit code makes. */
  datatype Fault = FileNotFound | OtherError

  /** A logged event, without its timestamp, duration or traceback. */
  datatype LogEntry =
    | Started                                   // "Started parsing process."
    | Parsed(filename: string)                  // "PARSE <name> SUCCESS ..."
    | Failed(filename: string, snippet: string) // "PARSE <name> FAILED ... HTML SNIPPET:"
    | ConfigurationError                        // "Configuration error: ..."
    | FatalError                                // "Fatal error: ..."
    | Finished                                  // "Finished parsing process in ..."

  /** A snapshot of everything the scripts leave behind. */
  datatype World = World(ledger: string, outputs: map<string, Record>, log: seq<LogEntry>)

  /** The files the scripts work on, changed in place. */
  class Disk {
    var ledger: string
    var outputs: map<string, Record>
    var log: seq<LogEntry>

    function State(): World
      reads this
    {
      World(ledger, outputs, log)
    }

    constructor (w: World)
      ensures State() == w
    {
      ledger, outputs, log := w.ledger, w.outputs, w.log;
    }

    /** `open(path, "w")` and `json.dump`: the file holds exactly `rec`. */
    method Write(name: string, rec: Record)
      modifies this
      ensures State() == old(State()).(outputs := old(outputs)[name := rec])
    {
      outputs := outputs[name := rec];
    }

    /** `open(path, "a")` and `write`: `text` goes after what the file held. */
    method Append(text: string)
      modifies this
      ensures State() == old(State()).(ledger := old(ledger) + text)
    {
      ledger := ledger + text;
    }

    /** One logger call. */
    method Log(e: LogEntry)
      modifies this
      ensures State() == old(State()).(log := old(log) + [e])
    {
      log := log + [e];
    }
  }
}
