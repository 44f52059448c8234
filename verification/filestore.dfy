/** The local file store that the dump and clone commands read and write: the
    files under `data/`, with the two ways a call can fail (a file that exists but
    cannot be read, a path where a write is refused). */
module FileStore {
  import opened Common

  /** What an existing path holds. */
  datatype FileEntry = Readable(content: Bytes) | Unreadable

  /** How the skip-unchanged write step ends. */
  datatype WriteOutcome = Written | Unchanged | Failed(error: Error)

  /** The file store as a value: the existing files, and the paths where
      ioutil.WriteFile fails. */
  datatype Disk = Disk(files: map<Path, FileEntry>, readOnly: set<Path>) {

    /** ioutil.ReadFile. */
    function Read(p: Path): Result<Bytes, Error>
    {
      if p !in files then Failure(NotExist(p))
      else match files[p]
        case Readable(c) => Success(c)
        case Unreadable => Failure(ReadFailed(p))
    }

    /** ioutil.WriteFile: replaces the whole file, or fails and changes nothing. */
    function Write(p: Path, data: Bytes): (Outcome, Disk)
    {
      if p in readOnly then (Fail(WriteFailed(p)), this)
      else (Pass, this.(files := files[p := Readable(data)]))
    }

    /** The "check if file has changed before writing to it" step of dumpProduct and
        dumpVersions: os.Stat, then ReadFile and bytes.Equal, then WriteFile. */
    function WriteIfChanged(p: Path, data: Bytes): (res: (WriteOutcome, Disk))
      ensures res.0 == Unchanged <==> Read(p) == Success(data)
      ensures res.0.Failed? <==>
                (p in files && files[p] == Unreadable) || (Read(p) != Success(data) && p in readOnly)
      ensures !res.0.Failed? ==> res.1.Read(p) == Success(data)
      ensures res.1.readOnly == readOnly
      ensures forall q :: q != p ==> res.1.Read(q) == Read(q)
      ensures res.0 != Written ==> res.1 == this
    {
      if p in files then
        match Read(p)
        case Failure(e) => (Failed(e), this)
        case Success(existing) =>
          if existing == data then (Unchanged, this)
          else
            var (r, d) := Write(p, data);
            (if r.Fail? then Failed(r.error) else Written, d)
      else
        var (r, d) := Write(p, data);
        (if r.Fail? then Failed(r.error) else Written, d)
    }
  }

  /** The file system the commands act on; every method below mirrors one call of
      Go's os / io/ioutil packages. */
  class FileSystem {
    var files: map<Path, FileEntry>
    var readOnly: set<Path>

    constructor (files: map<Path, FileEntry>, readOnly: set<Path>)
      ensures State() == Disk(files, readOnly)
    {
      this.files := files;
      this.readOnly := readOnly;
    }

    function State(): Disk
      reads this
    {
      Disk(files, readOnly)
    }

    /** os.Stat(p) returns no error. */
    method Stat(p: Path) returns (found: bool)
      ensures found <==> p in State().files
    {
      found := p in files;
    }

    method ReadFile(p: Path) returns (r: Result<Bytes, Error>)
      ensures r == State().Read(p)
    {
      if p !in files {
        r := Failure(NotExist(p));
      } else if files[p].Unreadable? {
        r := Failure(ReadFailed(p));
      } else {
        r := Success(files[p].content);
      }
    }

    method WriteFile(p: Path, data: Bytes) returns (r: Outcome)
      modifies this
      ensures (r, State()) == old(State()).Write(p, data)
    {
      if p in readOnly {
        r := Fail(WriteFailed(p));
      } else {
        files := files[p := Readable(data)];
        r := Pass;
      }
    }

    /** Skip-unchanged write, call by call as dumpProduct and dumpVersions do it. */
    method WriteIfChanged(p: Path, data: Bytes) returns (w: WriteOutcome)
      modifies this
      ensures (w, State()) == old(State()).WriteIfChanged(p, data)
    {
      var found := Stat(p);
      if found {
        var existing := ReadFile(p);
        if existing.Failure? {
          return Failed(existing.error);
        }
        if existing.value == data {
          return Unchanged;
        }
      }
      var r := WriteFile(p, data);
      w := if r.Fail? then Failed(r.error) else Written;
    }
  }
}
