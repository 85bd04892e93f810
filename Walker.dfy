/**
 * fileFunc, the callback filepath.Walk runs for every entry under the scan
 * root. The file system's answers (os.Stat, os.Open, reading the content
 * into MD5) are inputs; the two channels it sends on are sequences.
 */
module Walker {
  import opened Wrappers
  import opened HashInfo

  /** What os.Stat reports for the path. mode and modTime are the already
      formatted Mode().String() and UTC modification time. */
  datatype StatResult = StatErr(cause: string) | StatOk(isDir: bool, mode: string, modTime: string)

  /** What os.Open reports for the path. */
  datatype OpenResult = OpenErr(cause: string) | Opened

  /** What copying the opened file into the MD5 accumulator reports. */
  datatype ReadResult = ReadErr(cause: string) | Summed(sum: Digest)

  /** One visited entry: its path and the answers the system gives for it,
      including the clock reading taken after hashing. */
  datatype Entry = Entry(path: string, stat: StatResult, open: OpenResult, read: ReadResult, now: string)

  /** What one call of fileFunc sends: a record on files, a message on
      errors, or nothing. */
  datatype Outcome = Sent(file: FileHashInfo) | Reported(message: string) | Skipped

  function FileError(cause: string): string {
    "FILE ERROR :::::: " + cause + " \n"
  }

  function OpenError(cause: string): string {
    "OPEN ERROR :::::: " + cause + " \n"
  }

  /** The record built for a non-directory entry whose digest was read. */
  function Record(e: Entry, mode: string, modTime: string, sum: Digest): FileHashInfo {
    FileHashInfo(e.path, Ext(e.path), mode, EncodeToString(sum), e.now, modTime, Sentinel, Sentinel)
  }

  /** The outcome of fileFunc for one entry. */
  function Visit(e: Entry): (o: Outcome)
    // a directory sends nothing; every other entry sends exactly one thing
    ensures o.Skipped? <==> e.stat.StatOk? && e.stat.isDir
    // each failure is reported with its tag and cause
    ensures e.stat.StatErr? ==> o == Reported(FileError(e.stat.cause))
    ensures e.stat.StatOk? && !e.stat.isDir && e.open.OpenErr? ==> o == Reported(OpenError(e.open.cause))
    ensures e.stat.StatOk? && !e.stat.isDir && e.open.Opened? && e.read.ReadErr? ==>
              o == Reported(FileError(e.read.cause))
    // a record is sent exactly when stat, open and read all succeed on a non-directory
    ensures o.Sent? <==> e.stat.StatOk? && !e.stat.isDir && e.open.Opened? && e.read.Summed?
    ensures o.Sent? ==>
              && o.file.path == e.path
              && o.file.extension == Ext(e.path)
              && o.file.permissions == e.stat.mode
              && o.file.modifiedDate == e.stat.modTime
              && o.file.hashTime == e.now
              && o.file.oldHash == "--" && o.file.oldTime == "--"
              && |o.file.hash| == 32 && IsLowerHexString(o.file.hash)
              && DecodeString(o.file.hash) == Some(e.read.sum)
  {
    match e.stat
    case StatErr(cause) => Reported(FileError(cause))
    case StatOk(isDir, mode, modTime) =>
      if isDir then Skipped
      else
        match e.open
        case OpenErr(cause) => Reported(OpenError(cause))
        case Opened =>
          match e.read
          case ReadErr(cause) => Reported(FileError(cause))
          case Summed(sum) =>
            DigestHex(sum);
            Sent(Record(e, mode, modTime, sum))
  }

  function SentFiles(o: Outcome): seq<FileHashInfo> {
    if o.Sent? then [o.file] else []
  }

  function SentErrors(o: Outcome): seq<string> {
    if o.Reported? then [o.message] else []
  }

  /** The records a walk over the entries es sends, in order. */
  function Files(es: seq<Entry>): seq<FileHashInfo> {
    if es == [] then [] else SentFiles(Visit(es[0])) + Files(es[1..])
  }

  /** The messages a walk over the entries es sends, in order. */
  function Errors(es: seq<Entry>): seq<string> {
    if es == [] then [] else SentErrors(Visit(es[0])) + Errors(es[1..])
  }

  /** How many of es are not directories (or could not be stat'ed). */
  function NonDirectories(es: seq<Entry>): (n: nat)
    ensures n <= |es|
  {
    if es == [] then 0
    else (if es[0].stat.StatOk? && es[0].stat.isDir then 0 else 1) + NonDirectories(es[1..])
  }

  /** Because fileFunc never stops the walk, every entry that is not a
      directory is accounted for exactly once: one record or one message. */
  lemma {:induction false} EveryEntryAccountedFor(es: seq<Entry>)
    ensures |Files(es)| + |Errors(es)| == NonDirectories(es)
  {
    if es != [] {
      EveryEntryAccountedFor(es[1..]);
    }
  }

  /** The two channels fileFunc sends on. */
  class Walker {
    var files: seq<FileHashInfo>
    var errors: seq<string>

    constructor ()
      ensures files == [] && errors == []
    {
      files := [];
      errors := [];
    }

    /** fileFunc: sends the outcome of e and returns nil, so that the walk
        goes on after every failure. */
    method FileFunc(e: Entry) returns (err: Option<string>)
      modifies this
      ensures err == None
      ensures files == old(files) + SentFiles(Visit(e))
      ensures errors == old(errors) + SentErrors(Visit(e))
    {
      var errMsg: string;
      match e.stat {
        case StatErr(cause) =>
          errMsg := FileError(cause);
          errors := errors + [errMsg];
          return None;
        case StatOk(isDir, mode, modTime) =>
          if !isDir {
            match e.open {
              case OpenErr(cause) =>
                errMsg := OpenError(cause);
                errors := errors + [errMsg];
                return None;
              case Opened =>
            }
            match e.read {
              case ReadErr(cause) =>
                errMsg := FileError(cause);
                errors := errors + [errMsg];
                return None;
              case Summed(sum) =>
                var info := Record(e, mode, modTime, sum);
                files := files + [info];
                return None;
            }
          }
      }
      err := None;
    }
  }
}
