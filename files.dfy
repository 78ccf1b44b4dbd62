/** The filesystem as the servers see it through Go's `os` package: a map from
    path to entry, plus the paths whose `os.Stat` fails for a reason other than
    the path being absent (permission denied, I/O error). Whether `os.Create`,
    `io.Copy` and `os.Mkdir` fail is decided by the environment and passed in
    as a parameter of each call. */
module Files {
  import opened Wrappers

  type byte = b: int | 0 <= b < 256

  datatype Entry = File(data: seq<byte>) | Directory

  /** The errors the servers receive from the operating system, and the one
      they make themselves with `errors.New`. */
  datatype Error =
    | NotExist
    | StatFailed
    | MkdirFailed
    | CreateFailed
    | CopyFailed
    | Message(text: string)

  /** What `os.Stat` reports: the entry's kind, or an error. */
  datatype StatResult = Info(isDir: bool) | StatError(err: Error)

  /** How a stream copy ends: every byte written, or an error after some
      unspecified bytes reached the file. */
  datatype CopyOutcome = Copied | CopyInterrupted(written: seq<byte>)

  class FileSystem {
    var entries: map<string, Entry>
    var statFaults: set<string>

    constructor (entries: map<string, Entry>, statFaults: set<string>)
      ensures this.entries == entries && this.statFaults == statFaults
    {
      this.entries := entries;
      this.statFaults := statFaults;
    }

    /** `os.Stat(path)`. */
    function Stat(path: string): (info: StatResult)
      reads this
      ensures info.Info? <==> path in entries && path !in statFaults
      ensures info.Info? ==> info.isDir == (entries[path] == Directory)
      ensures info == StatError(NotExist) <==> path !in entries && path !in statFaults
      ensures info.StatError? ==> info.err == NotExist || info.err == StatFailed
    {
      if path in statFaults then StatError(StatFailed)
      else if path in entries then Info(entries[path].Directory?)
      else StatError(NotExist)
    }

    /** The paths on which `os.Stat` succeeds. */
    function Occupied(): (taken: set<string>)
      reads this
      ensures forall path :: path in taken <==> Stat(path).Info?
      ensures taken <= entries.Keys
    {
      entries.Keys - statFaults
    }

    /** `os.Create(path)`: on success the path holds an empty file (a file that
        was there is truncated). */
    method Create(path: string, fails: bool) returns (err: Option<Error>)
      modifies this
      ensures err == (if fails then Some(CreateFailed) else None)
      ensures entries == if fails then old(entries) else old(entries)[path := File([])]
      ensures statFaults == old(statFaults)
    {
      if fails {
        err := Some(CreateFailed);
      } else {
        entries := entries[path := File([])];
        err := None;
      }
    }

    /** `io.Copy` of `content` into the file created at `path`. An interrupted
        copy leaves whatever bytes it wrote. */
    method Copy(path: string, content: seq<byte>, outcome: CopyOutcome) returns (err: Option<Error>)
      modifies this
      ensures outcome.Copied? ==> err == None && entries == old(entries)[path := File(content)]
      ensures outcome.CopyInterrupted? ==>
        err == Some(CopyFailed) && entries == old(entries)[path := File(outcome.written)]
      ensures statFaults == old(statFaults)
    {
      match outcome
      case Copied =>
        entries := entries[path := File(content)];
        err := None;
      case CopyInterrupted(written) =>
        entries := entries[path := File(written)];
        err := Some(CopyFailed);
    }

    /** `os.Mkdir(path, 0755)`. */
    method Mkdir(path: string, fails: bool) returns (err: Option<Error>)
      modifies this
      ensures err == (if fails then Some(MkdirFailed) else None)
      ensures entries == if fails then old(entries) else old(entries)[path := Directory]
      ensures statFaults == old(statFaults)
    {
      if fails {
        err := Some(MkdirFailed);
      } else {
        entries := entries[path := Directory];
        err := None;
      }
    }
  }

  /** Storing under a path that was absent adds exactly that one entry and
      leaves every other entry as it was. */
  lemma AddsExactlyOne(before: map<string, Entry>, path: string, e: Entry)
    requires path !in before
    ensures before[path := e].Keys == before.Keys + {path}
    ensures |before[path := e]| == |before| + 1
    ensures forall q :: q in before ==> before[path := e][q] == before[q]
  {
  }
}
