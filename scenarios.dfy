/**
  Sequences of commands on one repository: the promises that relate
  several calls (adding twice, committing twice, committing then
  restoring) and the worked examples of a first and a second commit.
 */
module Scenarios {
  import opened Wrappers
  import opened Lines
  import opened Hex
  import opened Fingerprinting
  import opened LogView
  import opened Repository

  /** Adding the same path twice: the second add changes nothing. */
  method AddTwice(r: Repo, path: string) returns (first: AddOutcome, second: AddOutcome)
    requires r.Valid()
    modifies r`index
    ensures r.Valid()
    ensures r.index == Track(r.tree, old(r.index), path)
    ensures second == if OnDisk(r.tree, path) then AlreadyTracked(path) else NotFound(path)
  {
    first := r.Add(Some(path));
    second := r.Add(Some(path));
  }

  /**
    Committing twice with nothing changed in between: the second commit
    reports what the first did not do, so at most one snapshot and one
    record are added.
   */
  method CommitTwice(r: Repo, message: string) returns (first: CommitOutcome, second: CommitOutcome)
    requires r.Valid()
    modifies r`commits, r`logFile
    ensures r.Valid()
    ensures first == CommitOutcomeOf(Some(message), Fingerprint(r.md5, r.tree, r.Tracked()), old(r.commits).Keys, r.Author())
    ensures second == if first.MadeSnapshot() then NothingToCommit else first
    ensures first.MadeSnapshot() ==>
      AllPresent(r.tree, r.Tracked()) && r.commits == old(r.commits)[first.hash := SnapshotOf(r.tree, r.Tracked())]
    ensures !first.MadeSnapshot() ==> r.commits == old(r.commits)
    ensures first.Committed? ==> r.logFile == AppendFile(old(r.logFile), Record(message, r.Author(), first.hash))
    ensures !first.Committed? ==> r.logFile == old(r.logFile)
  {
    first := r.Commit(Some(message));
    second := r.Commit(Some(message));
  }

  /**
    Committing, then overwriting a working file, then checking the commit
    out restores every tracked file to its committed bytes.
   */
  method CommitEditCheckout(r: Repo, message: string, path: string, content: seq<byte>)
    returns (committed: CommitOutcome, switched: CheckoutOutcome)
    requires r.Valid() && FlatName(path)
    modifies r`tree, r`commits, r`logFile
    ensures r.Valid()
    ensures committed.MadeSnapshot() ==>
      && switched == Switched(committed.hash)
      && AllPresent(old(r.tree), r.Tracked())
      && forall k :: 0 <= k < |r.Tracked()| ==>
           r.Tracked()[k] in r.tree && r.tree[r.Tracked()[k]] == old(r.tree)[r.Tracked()[k]]
  {
    committed := r.Commit(Some(message));
    ghost var files := r.Tracked();
    r.WriteFile(path, content);
    if committed.MadeSnapshot() {
      ghost var edited := r.tree;
      switched := r.Checkout(Some(committed.hash));
      RestoreSnapshot(edited, old(r.tree), files);
    } else {
      switched := r.Checkout(None);
    }
  }

  /** Committing with nothing tracked says there is nothing to commit. */
  method NothingTracked(md5: Hasher, files: Tree, config: Option<string>, message: string) returns (o: CommitOutcome)
    requires ValidTree(files)
    ensures o == NothingToCommit
  {
    var r := new Repo(md5, files, config);
    o := r.Commit(Some(message));
  }

  /** A repository whose working tree holds one file `name`, tracked, with `author` configured. */
  method TrackOne(md5: Hasher, name: string, content: seq<byte>, author: string) returns (r: Repo)
    requires FlatName(name)
    ensures fresh(r) && r.Valid() && r.md5 == md5
    ensures r.tree == map[name := content] && r.Tracked() == [name] && AllPresent(r.tree, r.Tracked())
    ensures r.commits == map[] && r.logFile == None && r.config == Some(author)
  {
    r := new Repo(md5, map[name := content], Some(author));
    var added := r.Add(Some(name));
  }

  /** The first commit stores a snapshot under the file's fingerprint and logs one record. */
  method FirstCommit(md5: Hasher, name: string, content: seq<byte>, author: string, message: string)
    returns (first: CommitOutcome, listing: seq<string>, store: map<string, Snapshot>)
    requires FlatName(name) && author != "" && '\n' !in author && '\n' !in message
    ensures first == Committed(Fingerprint(md5, map[name := content], [name]).value)
    ensures store == map[first.hash := map[name := content]]
    ensures listing == ["", "commit " + first.hash, "Author: " + author, message]
  {
    var r := TrackOne(md5, name, content, author);
    ghost var fp := Fingerprint(md5, r.tree, r.Tracked());
    assert fp.Success? && fp.value != "";
    assert SnapshotOf(r.tree, r.Tracked()) == map[name := content];
    first := r.Commit(Some(message));
    assert first == Committed(fp.value);
    store := r.commits;
    LowerHexHasNoNewline(first.hash);
    ListingAfterAppend(None, message, author, first.hash);
    listing := ShowLog(r.logFile);
  }

  /** Repeating the first commit with no change: nothing to commit, the log keeps its one record. */
  method RepeatedCommit(md5: Hasher, name: string, content: seq<byte>, author: string, message: string)
    returns (repeat: CommitOutcome, listing: seq<string>)
    requires FlatName(name) && author != "" && '\n' !in author && '\n' !in message
    ensures repeat == NothingToCommit
    ensures listing == ["", "commit " + Fingerprint(md5, map[name := content], [name]).value, "Author: " + author, message]
  {
    var r := TrackOne(md5, name, content, author);
    ghost var fp := Fingerprint(md5, r.tree, r.Tracked());
    assert fp.Success? && fp.value != "";
    var first := r.Commit(Some(message));
    assert first == Committed(fp.value);
    LowerHexHasNoNewline(first.hash);
    ListingAfterAppend(None, message, author, first.hash);
    assert Fingerprint(md5, r.tree, r.Tracked()) == fp && fp.value in r.commits.Keys;
    repeat := r.Commit(Some(message));
    listing := ShowLog(r.logFile);
  }

  /** Checking out an id that names no commit reports it and leaves the files alone. */
  method CheckoutUnknown(md5: Hasher, name: string, content: seq<byte>, author: string)
    returns (missing: CheckoutOutcome, after: Tree)
    requires FlatName(name)
    ensures missing == NoSuchCommit("doesnotexist")
    ensures after == map[name := content]
  {
    var r := TrackOne(md5, name, content, author);
    var first := r.Commit(Some("first"));
    missing := r.Checkout(Some("doesnotexist"));
    after := r.tree;
  }

  /**
    With no username the snapshot is stored but the log stays empty: the
    commit exists without a record, and committing again finds nothing to do.
   */
  method OrphanSnapshot(md5: Hasher, name: string, content: seq<byte>, message: string)
    returns (first: CommitOutcome, again: CommitOutcome, listing: seq<string>, stored: bool)
    requires FlatName(name)
    ensures first.CommittedWithoutAuthor? && stored
    ensures again == NothingToCommit
    ensures listing == []
  {
    var r := TrackOne(md5, name, content, "");
    ghost var fp := Fingerprint(md5, r.tree, r.Tracked());
    assert fp.Success? && fp.value != "";
    first, again := CommitTwice(r, message);
    assert first == CommitOutcomeOf(Some(message), fp, {}, "");
    stored := first.hash in r.commits;
    listing := ShowLog(r.logFile);
  }

  /**
    Adding the working directory itself: `os.Stat(".")` succeeds, so "." is
    tracked, and every later commit stops on it, since a directory cannot
    be hashed as a file.
   */
  method TrackDirectory(md5: Hasher, files: Tree, config: Option<string>, message: string)
    returns (added: AddOutcome, o: CommitOutcome)
    requires ValidTree(files)
    ensures added == NowTracked(".")
    ensures o == Unreadable(".")
  {
    var r := new Repo(md5, files, config);
    added := r.Add(Some("."));
    assert r.Tracked() == ["."];
    o := r.Commit(Some(message));
  }
}
