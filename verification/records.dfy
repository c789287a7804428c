/**
 The values fiche passes around: the two record shapes it stores in its hash
 lists, the run configuration (the parsed command-line flags), and the view of
 the file system that the scanner and the hasher consult.
 */
module Records {

  datatype Option<+T> = None | Some(value: T)

  /** Why a run is abandoned: a root that is not a directory (the IOError of handle_directory). */
  datatype Error = NotADirectory(path: string)

  datatype Result<+T> = Ok(value: T) | Err(error: Error)

  /** The bytes of a file. */
  type Content = seq<bv8>

  /** The content digest (MD5 hex digest in fiche), kept abstract: only "a function of the bytes" matters. */
  type Hasher = Content -> string

  /** fnmatch(name, pattern), kept abstract. */
  type Matcher = (string, string) -> bool

  /** One entry of a tree's hash list: a 2-tuple (path, hash). */
  datatype FileRecord = FileRecord(path: string, hash: string)

  /** One entry of a duplicates list: a 4-tuple (path, hash, original path, original hash). */
  datatype DuplicateRecord = DuplicateRecord(path: string, hash: string, originalPath: string, originalHash: string)

  /**
   The flags of one run: -d/--duplicates, -i/--ignore (absent, or a possibly
   empty list of patterns), and the two library routines the core relies on.
   */
  datatype Config = Config(duplicates: bool, ignore: Option<seq<string>>, matches: Matcher, digest: Hasher)

  /** One triple (root, dirs, files) produced by os.walk. */
  datatype WalkEntry = WalkEntry(root: string, dirs: seq<string>, files: seq<string>)

  /**
   The file system as fiche sees it: every directory with the order in which
   os.walk visits it (a path is a directory exactly when it is a key of
   `trees`), and the content of every file that can be opened and read.
   */
  datatype Disk = Disk(trees: map<string, seq<WalkEntry>>, readable: map<string, Content>)

  /** The hash column of a hash list (`el[1] for el in ...`). */
  function Hashes(records: seq<FileRecord>): (hs: seq<string>)
    ensures |hs| == |records|
    ensures forall k :: 0 <= k < |records| ==> hs[k] == records[k].hash
  {
    seq(|records|, k requires 0 <= k < |records| => records[k].hash)
  }

  lemma HashesSnoc(records: seq<FileRecord>, r: FileRecord)
    ensures Hashes(records + [r]) == Hashes(records) + [r.hash]
  {
  }
}
