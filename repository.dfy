/**
  The repository: the working tree, the index file, the commit store,
  the log file and the configured username, and the commands that
  change them (add, commit with writeLog, checkout).
 */
module Repository {
  import opened Wrappers
  import opened Lines
  import opened Hex
  import opened Fingerprinting
  import opened LogView

  /** The files of one commit directory, by name. */
  type Snapshot = map<string, seq<byte>>

  /**
    A top-level file name: the only files the working tree holds. The names
    of the working directory, its parent and the `vcs` directory are not
    file names.
   */
  predicate FlatName(p: string)
  {
    !DirectoryName(p) && '/' !in p && '\n' !in p
  }

  /**
    A path that `filepath.Join(".", p)` resolves to a directory that always
    exists: the working directory (`""` and `"."`), its parent, and `vcs`.
   */
  predicate DirectoryName(p: string)
  {
    p == "" || p == "." || p == ".." || p == "vcs"
  }

  /** `os.Stat` of the path succeeds: a working file or one of the directories. */
  predicate OnDisk(tree: Tree, p: string)
  {
    p in tree || DirectoryName(p)
  }

  /** A fingerprint is a file name, so a directory named by one can be listed and copied from. */
  lemma FingerprintIsFlatName(h: string)
    requires |h| == 32 && IsLowerHex(h)
    ensures FlatName(h)
  {
    LowerHexHasNoNewline(h);
    assert h[0] in h && IsHexChar(h[0]);
    assert '/' !in h by {
      forall k | 0 <= k < |h| ensures h[k] != '/' { assert IsHexChar(h[k]); }
    }
  }

  predicate NoDuplicates(s: seq<string>)
  {
    forall i, j :: 0 <= i < j < |s| ==> s[i] != s[j]
  }

  /** getUserName: the content of the config file; a missing or empty file means no username. */
  function UserName(config: Option<string>): (name: string)
    ensures name == "" <==> config == None || config == Some("")
    ensures config.Some? ==> name == config.value
  {
    match config
    case None => ""
    case Some(content) => content
  }

  /** isFileVersioned: a linear search of the index lines. */
  method IsFileVersioned(index: Option<string>, file: string) returns (versioned: bool)
    ensures versioned <==> file in ListLines(index)
  {
    var lines := ListLines(index);
    for k := 0 to |lines|
      invariant file !in lines[..k]
    {
      if lines[k] == file {
        return true;
      }
      assert lines[..k + 1] == lines[..k] + [lines[k]];
    }
    assert lines[..|lines|] == lines;
    return false;
  }

  /**
    The index after `add path`: the path is appended as a new line only
    when `os.Stat` finds it and it is not yet tracked.
   */
  function Track(tree: Tree, index: Option<string>, path: string): Option<string>
  {
    if OnDisk(tree, path) && path !in ListLines(index) then AppendFile(index, path + "\n") else index
  }

  /** Tracking adds exactly the new path at the end of the list, or nothing. */
  lemma TrackAppends(tree: Tree, index: Option<string>, path: string)
    requires WellFormed(Text(index)) && '\n' !in path
    ensures WellFormed(Text(Track(tree, index, path)))
    ensures OnDisk(tree, path) && path !in ListLines(index) ==>
      ListLines(Track(tree, index, path)) == ListLines(index) + [path]
    ensures !OnDisk(tree, path) || path in ListLines(index) ==> Track(tree, index, path) == index
  {
    if OnDisk(tree, path) && path !in ListLines(index) {
      DecodeAppendLine(Text(index), path);
      assert Text(index) + (path + "\n") == Text(index) + path + "\n";
    }
  }

  /** Adding a path twice is the same as adding it once. */
  lemma TrackIdempotent(tree: Tree, index: Option<string>, path: string)
    requires WellFormed(Text(index)) && '\n' !in path
    ensures Track(tree, Track(tree, index, path), path) == Track(tree, index, path)
  {
    TrackAppends(tree, index, path);
    var once := Track(tree, index, path);
    if once != index {
      assert ListLines(once)[|ListLines(once)| - 1] == path;
    }
  }

  /** The snapshot of the listed files: each one's current bytes, by name. */
  function SnapshotOf(tree: Tree, files: seq<string>): (snap: Snapshot)
    requires AllPresent(tree, files)
    ensures forall f :: f in snap <==> f in files
    ensures forall f :: f in snap ==> snap[f] == tree[f]
  {
    map f | f in files :: tree[f]
  }

  lemma SnapshotSnoc(tree: Tree, files: seq<string>, i: nat)
    requires i < |files| && AllPresent(tree, files)
    ensures AllPresent(tree, files[..i]) && AllPresent(tree, files[..i + 1])
    ensures SnapshotOf(tree, files[..i + 1]) == SnapshotOf(tree, files[..i])[files[i] := tree[files[i]]]
  {
    assert files[..i + 1] == files[..i] + [files[i]];
  }

  /** Restoring a snapshot over any tree gives back the snapshot's bytes for every file it holds. */
  lemma RestoreSnapshot(current: Tree, tree: Tree, files: seq<string>)
    requires AllPresent(tree, files)
    ensures forall k :: 0 <= k < |files| ==>
      files[k] in current + SnapshotOf(tree, files) && (current + SnapshotOf(tree, files))[files[k]] == tree[files[k]]
  {
  }

  /** Every working file has a flat name. */
  predicate ValidTree(tree: Tree)
  {
    forall p :: p in tree ==> FlatName(p)
  }

  /** The index is whole lines of distinct paths, each a flat name or a directory name. */
  predicate ValidIndex(index: Option<string>)
  {
    && WellFormed(Text(index))
    && (forall k :: 0 <= k < |ListLines(index)| ==> FlatName(ListLines(index)[k]) || DirectoryName(ListLines(index)[k]))
    && NoDuplicates(ListLines(index))
  }

  /** Every snapshot is keyed by a 32-digit fingerprint and holds flat names only. */
  predicate ValidStore(commits: map<string, Snapshot>)
  {
    && (forall h :: h in commits ==> |h| == 32 && IsLowerHex(h))
    && (forall h, f :: h in commits && f in commits[h] ==> FlatName(f))
  }

  lemma StoreSnapshotKeepsValid(commits: map<string, Snapshot>, hash: string, tree: Tree, files: seq<string>)
    requires ValidStore(commits) && ValidTree(tree) && AllPresent(tree, files)
    requires |hash| == 32 && IsLowerHex(hash)
    ensures ValidStore(commits[hash := SnapshotOf(tree, files)])
  {
  }

  /** Storing under a new fingerprint leaves every existing snapshot as it was. */
  lemma InsertKeepsOthers(commits: map<string, Snapshot>, hash: string, snap: Snapshot)
    requires hash !in commits
    ensures forall h :: h in commits ==> h in commits[hash := snap] && commits[hash := snap][h] == commits[h]
  {
  }

  datatype AddOutcome =
    | Listed(files: seq<string>)   // no path given: the tracked files are listed
    | NotFound(path: string)       // "Can't find '...'."
    | NowTracked(path: string)     // "The file '...' is tracked."
    | AlreadyTracked(path: string) // silent

  datatype CommitOutcome =
    | NoMessage                    // "Message was not passed."
    | Unreadable(path: string)     // log.Fatal: a tracked file cannot be opened
    | NothingToCommit              // no tracked file, or a snapshot with this fingerprint exists
    | Committed(hash: string)      // "Changes are committed."
    | CommittedWithoutAuthor(hash: string) // snapshot made, no username, no log record
  {
    predicate MadeSnapshot() { Committed? || CommittedWithoutAuthor? }
  }

  /**
    The outcome of commitHandler, in the order it checks: the message, the
    fingerprint (and whether the tracked files can be read), whether a
    snapshot with that fingerprint exists, and the username.
   */
  function CommitOutcomeOf(message: Option<string>, fp: Result<string, string>, stored: set<string>, author: string): CommitOutcome
  {
    if message.None? then NoMessage
    else if fp.Failure? then Unreadable(fp.error)
    else if fp.value == "" || fp.value in stored then NothingToCommit
    else if author == "" then CommittedWithoutAuthor(fp.value)
    else Committed(fp.value)
  }

  /**
    When commitHandler stores a snapshot: a message is given, something is
    tracked, every tracked file can be read and the fingerprint is new. It
    stops on the first tracked file it cannot read, and it writes a log
    record exactly when it stores a snapshot and a username is set.
   */
  lemma CommitOutcomeCases(message: Option<string>, md5: Hasher, tree: Tree, files: seq<string>, stored: set<string>, author: string)
    ensures var o := CommitOutcomeOf(message, Fingerprint(md5, tree, files), stored, author);
      && (o.MadeSnapshot() <==>
            message.Some? && files != [] && AllPresent(tree, files) && Fingerprint(md5, tree, files).value !in stored)
      && (o.Unreadable? <==> message.Some? && !AllPresent(tree, files))
      && (o.Unreadable? ==> o.path in files && o.path !in tree)
      && (o.Committed? <==> o.MadeSnapshot() && author != "")
  {
    var fp := Fingerprint(md5, tree, files);
    if message.Some? && !AllPresent(tree, files) {
      var k := FirstMissing(tree, files);
      assert fp.error == files[k];
    }
  }

  /** An empty file for each name. */
  function EmptyFiles(names: set<string>): (files: Snapshot)
    ensures files.Keys == names
  {
    map h | h in names :: []
  }

  datatype CheckoutOutcome =
    | NoCommitId                   // "Commit id was not passed."
    | NoSuchCommit(id: string)     // "Commit does not exist."
    | Switched(id: string)         // "Switched to commit ..."

  class Repo {
    /** The MD5 function, left uninterpreted. */
    const md5: Hasher
    /** The working directory's files. */
    var tree: Tree
    /** vcs/index.txt */
    var index: Option<string>
    /** vcs/commits: one snapshot directory per fingerprint. */
    var commits: map<string, Snapshot>
    /** vcs/log.txt */
    var logFile: Option<string>
    /** vcs/config.txt */
    var config: Option<string>

    /** The tracked paths, in tracking order. */
    function Tracked(): seq<string>
      reads this`index
    {
      ListLines(index)
    }

    function LogText(): string
      reads this`logFile
    {
      Text(logFile)
    }

    function Author(): string
      reads this`config
    {
      UserName(config)
    }

    /**
      What the commands keep true: working files have flat names; the index
      and the log consist of whole lines; tracked paths are flat names, each
      tracked once; every snapshot is keyed by a 32-digit fingerprint and
      holds flat names.
     */
    ghost predicate Valid()
      reads this
    {
      && ValidTree(tree)
      && ValidIndex(index)
      && WellFormed(Text(logFile))
      && ValidStore(commits)
    }

    /** A fresh repository: the vcs directories are made, nothing is tracked or committed. */
    constructor (md5: Hasher, files: Tree, config: Option<string>)
      requires forall p :: p in files ==> FlatName(p)
      ensures Valid()
      ensures this.md5 == md5 && tree == files && this.config == config
      ensures index == None && commits == map[] && logFile == None
    {
      this.md5 := md5;
      tree := files;
      index := None;
      commits := map[];
      logFile := None;
      this.config := config;
    }

    /** An edit of a working file made outside the tool. */
    method WriteFile(path: string, content: seq<byte>)
      requires Valid() && FlatName(path)
      modifies this`tree
      ensures Valid()
      ensures tree == old(tree)[path := content]
    {
      tree := tree[path := content];
    }

    /**
      addHandler. Without a path it lists the tracked files. With one, it
      reports a path `os.Stat` cannot find, ignores a path already tracked,
      and otherwise appends the path as a new index line; a directory name
      passes the stat and is tracked like a file.
     */
    method Add(path: Option<string>) returns (o: AddOutcome)
      requires Valid()
      modifies this`index
      ensures Valid()
      ensures old(Text(index)) <= Text(index)
      ensures path.None? ==> o == Listed(Tracked()) && index == old(index)
      ensures path.Some? ==> index == Track(tree, old(index), path.value)
      ensures path.Some? && !OnDisk(tree, path.value) ==> o == NotFound(path.value) && index == old(index)
      ensures path.Some? && OnDisk(tree, path.value) && path.value in old(Tracked()) ==>
        o == AlreadyTracked(path.value) && index == old(index)
      ensures path.Some? && OnDisk(tree, path.value) && path.value !in old(Tracked()) ==>
        o == NowTracked(path.value) && Tracked() == old(Tracked()) + [path.value]
    {
      if path.None? {
        return Listed(Tracked());
      }
      var p := path.value;
      if !(p in tree || DirectoryName(p)) {
        return NotFound(p);
      }
      var versioned := IsFileVersioned(index, p);
      if versioned {
        return AlreadyTracked(p);
      }
      TrackAppends(tree, index, p);
      index := AppendFile(index, p + "\n");
      assert Tracked() == old(Tracked()) + [p];
      o := NowTracked(p);
    }

    /**
      writeLog: appends the four-line record for a commit when a username
      is configured; otherwise leaves the log as it is.
     */
    method WriteLog(hash: string, message: string) returns (logged: bool)
      requires WellFormed(LogText())
      modifies this`logFile
      ensures WellFormed(LogText())
      ensures logged <==> Author() != ""
      ensures logged ==> logFile == AppendFile(old(logFile), Record(message, Author(), hash))
      ensures !logged ==> logFile == old(logFile)
    {
      var name := UserName(config);
      if |name| == 0 {
        return false;
      }
      logFile := AppendFile(logFile, Record(message, name, hash));
      return true;
    }

    /**
      The copy loop of commitHandler: makes the directory for `hash` and
      copies each listed file into it.
     */
    method StoreSnapshot(hash: string, files: seq<string>)
      requires AllPresent(tree, files)
      modifies this`commits
      ensures commits == old(commits)[hash := SnapshotOf(tree, files)]
    {
      commits := commits[hash := map[]];
      assert SnapshotOf(tree, files[..0]) == map[];
      for i := 0 to |files|
        invariant commits == old(commits)[hash := SnapshotOf(tree, files[..i])]
      {
        SnapshotSnoc(tree, files, i);
        commits := commits[hash := commits[hash][files[i] := tree[files[i]]]];
      }
      assert files[..|files|] == files;
    }

    /**
      commitHandler. A missing message, an empty index or a fingerprint that
      already names a snapshot change nothing. Otherwise a new snapshot of
      every tracked file is stored under the fingerprint and writeLog is
      called; with no username the snapshot stays without a log record.
     */
    method Commit(message: Option<string>) returns (o: CommitOutcome)
      requires Valid()
      modifies this`commits, this`logFile
      ensures Valid()
      ensures o == CommitOutcomeOf(message, Fingerprint(md5, tree, Tracked()), old(commits).Keys, Author())
      ensures o.MadeSnapshot() ==> AllPresent(tree, Tracked()) && |o.hash| == 32 && IsLowerHex(o.hash)
      ensures commits == if o.MadeSnapshot() then old(commits)[o.hash := SnapshotOf(tree, Tracked())] else old(commits)
      ensures logFile == if o.Committed? then AppendFile(old(logFile), Record(message.value, Author(), o.hash)) else old(logFile)
      ensures old(LogText()) <= LogText()
      ensures forall h :: h in old(commits) ==> h in commits && commits[h] == old(commits)[h]
    {
      if message.None? {
        o := NoMessage;
      } else {
        o := CommitMessage(message.value);
        if o.MadeSnapshot() {
          assert o.hash !in old(commits);
          InsertKeepsOthers(old(commits), o.hash, SnapshotOf(tree, Tracked()));
        }
      }
    }

    /** commitHandler once a message is given: the fingerprint, then the dedup check. */
    method CommitMessage(message: string) returns (o: CommitOutcome)
      requires Valid()
      modifies this`commits, this`logFile
      ensures Valid()
      ensures o == CommitOutcomeOf(Some(message), Fingerprint(md5, tree, Tracked()), old(commits).Keys, Author())
      ensures o.MadeSnapshot() ==> AllPresent(tree, Tracked())
      ensures commits == if o.MadeSnapshot() then old(commits)[o.hash := SnapshotOf(tree, Tracked())] else old(commits)
      ensures logFile == if o.Committed? then AppendFile(old(logFile), Record(message, Author(), o.hash)) else old(logFile)
    {
      var fp := TrackedFilesHash(md5, tree, Tracked());
      if fp.Failure? {
        return Unreadable(fp.error);
      }
      var hash := fp.value;
      if hash == "" || hash in commits {
        return NothingToCommit;
      }
      o := CommitNew(hash, message);
    }

    /**
      The new-fingerprint branch of commitHandler: the snapshot is stored
      first, then writeLog runs, so a missing username leaves the snapshot
      without a record.
     */
    method CommitNew(hash: string, message: string) returns (o: CommitOutcome)
      requires Valid() && hash !in commits
      requires |hash| == 32 && IsLowerHex(hash)
      requires AllPresent(tree, Tracked())
      modifies this`commits, this`logFile
      ensures Valid()
      ensures commits == old(commits)[hash := SnapshotOf(tree, Tracked())]
      ensures o == if Author() == "" then CommittedWithoutAuthor(hash) else Committed(hash)
      ensures logFile == if o.Committed? then AppendFile(old(logFile), Record(message, Author(), hash)) else old(logFile)
    {
      StoreSnapshotKeepsValid(commits, hash, tree, Tracked());
      StoreSnapshot(hash, Tracked());
      var logged := WriteLog(hash, message);
      if logged {
        o := Committed(hash);
      } else {
        o := CommittedWithoutAuthor(hash);
      }
    }

    /**
      checkoutHandler: copies every entry of the named commit directory over
      the working tree (`os.Create` then `io.Copy`). Files the directory does
      not hold are left alone; an id with no directory changes nothing. The
      ids `""` and `"."` name the commits directory itself: each of its
      entries is a snapshot directory, so `os.Create` leaves an empty working
      file under each fingerprint and the copy from a directory fails, its
      error ignored.
     */
    method Checkout(id: Option<string>) returns (o: CheckoutOutcome)
      requires Valid()
      modifies this`tree
      ensures Valid()
      ensures id.None? ==> o == NoCommitId && tree == old(tree)
      ensures id.Some? && (id.value == "" || id.value == ".") ==>
        o == Switched(id.value) && tree == old(tree) + EmptyFiles(commits.Keys)
      ensures id.Some? && id.value != "" && id.value != "." && id.value !in commits ==>
        o == NoSuchCommit(id.value) && tree == old(tree)
      ensures id.Some? && id.value in commits ==>
        o == Switched(id.value) && tree == old(tree) + commits[id.value]
    {
      if id.None? {
        return NoCommitId;
      }
      var snap: Snapshot;
      if id.value == "" || id.value == "." {
        snap := EmptyFiles(commits.Keys);
        forall h | h in snap ensures FlatName(h) {
          FingerprintIsFlatName(h);
        }
      } else if id.value !in commits {
        return NoSuchCommit(id.value);
      } else {
        snap := commits[id.value];
      }
      CopyOver(snap);
      o := Switched(id.value);
    }

    /** The copy loop of checkoutHandler: each file of `snap` overwrites or creates its working file. */
    method CopyOver(snap: Snapshot)
      modifies this`tree
      ensures tree == old(tree) + snap
    {
      var todo := snap.Keys;
      while todo != {}
        invariant todo <= snap.Keys
        invariant tree.Keys == old(tree).Keys + (snap.Keys - todo)
        invariant forall f :: f in snap && f !in todo ==> tree[f] == snap[f]
        invariant forall f :: f in old(tree) && (f !in snap || f in todo) ==> tree[f] == old(tree)[f]
        decreases todo
      {
        var f :| f in todo;
        tree := tree[f := snap[f]];
        todo := todo - {f};
      }
      assert tree == old(tree) + snap;
    }
  }
}
