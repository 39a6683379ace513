# SVCS: a verified model of a small version control system

SVCS is a command-line tool. It keeps its state in a `./vcs` directory next to the working files:
- `index.txt` holds the tracked paths, one per line, in the order they were added.
- `commits/<fingerprint>/` holds one snapshot directory per commit, with a copy of every tracked file.
- `log.txt` holds the commit records, one per commit made while a username is configured. A commit without a username leaves its snapshot with no record. A record is four lines when the message and the username hold no newline.
- `config.txt` holds the username.

A commit's fingerprint is the lowercase hexadecimal MD5 sum of the concatenated hexadecimal MD5 sums of the tracked files, taken in index order. A commit whose fingerprint already names a snapshot is "nothing to commit". Checking out a commit copies its files back over the working tree.

The model has these modules:

- `Wrappers`: `Option` and `Result`.
- `Lines`: the line files.
  - A file is `Option<string>`; `None` means the file does not exist.
  - Reading follows `strings.Split(content, "\n")` and drops the last piece.
  - Writing appends.
  - Decoding is proved to invert encoding, and appending a line is proved to add exactly that line.
- `Hex`: bytes and the `%x` rendering, with its decoder as the round-trip partner.
- `Fingerprinting`: `fileHash` and `trackedFilesHash`.
  - MD5 is a parameter: any total function from bytes to 16 bytes.
  - `Fingerprint` is the specification function; `TrackedFilesHash` is the string-builder loop, proved to compute it.
- `LogView`: the record `writeLog` appends, and `logHandler`'s listing.
  - The listing is the log's lines reversed, with `slices.Reverse` as an in-place array method.
- `Repository`: the repository as a class `Repo`.
  - Fields: working tree, index, commit store, log, config.
  - Methods: `add`, `commit` (with the copy loop and `writeLog`) and `checkout`.
  - Each command method is stated against the old state and keeps the invariant `Valid()`. The helper methods for the copy loops and `writeLog` are stated against the old values of the fields they change.
- `Scenarios`: client methods that chain the commands. Each method's contract states what the chain guarantees:
  - add twice;
  - commit twice;
  - commit, edit, then check out;
  - a first commit and its log listing;
  - a commit with no username.

## Model

| member | source | states |
|---|---|---|
| Lines.Split | main.go:235 | `strings.Split` on "\n": at least one piece, no piece holds a newline, and joining the pieces with newlines gives the text back |
| Lines.Decode | main.go:235-240 | the lines of a text are newline-free; a text with no newline has no lines |
| Lines.ListLines | main.go:224-241 | listTrackedFiles (and listLogs, 243-260, the same code): a file's lines are the decoded content; a missing file and an empty file both give no lines |
| Lines.DecodeAppendLine | main.go:121-128 | appending `p + "\n"` to a whole-line file adds exactly `p` as the last line, nothing else changes |
| Lines.DecodeConcat | main.go:327-328 | appending any text to a whole-line file: the lines of the result are the old lines followed by the lines of the appended text |
| Lines.SplitAtNewline | main.go:235 | splitting `a + "\n" + b` gives the pieces of `a` followed by the pieces of `b` |
| Lines.SplitNoNewline | main.go:235 | a text with no newline splits into itself alone |
| Lines.Encode | main.go:126 | writing lines one newline-terminated line at a time gives a whole-line text, empty exactly when there are no lines |
| Lines.DecodeEncode | main.go:235-240 | reading back written newline-free lines gives those lines |
| Lines.EncodeDecode | main.go:235-240 | rewriting the lines read from a whole-line text gives the text back |
| Lines.AppendFile | main.go:121-128 | definition of an append with `O_APPEND\|O_CREATE`; what it does to the file's lines is stated by DecodeAppendLine and DecodeConcat |
| Hex.HexEncode | main.go:295 | `%x` of bytes: two characters per byte, all lowercase hexadecimal digits |
| Hex.HexRoundTrip | main.go:295 | decoding the `%x` rendering gives back the bytes |
| Hex.HexEncodeInjective | main.go:280 | distinct sums have distinct `%x` renderings; FingerprintDeterminesSum applies it to the fingerprint |
| Hex.DigitValue | main.go:295 | every lowercase digit is the rendering of one value below 16 |
| Hex.DigitRoundTrip | main.go:295 | rendering a value below 16 and reading it back gives the value |
| Hex.LowerHexHasNoNewline | main.go:327 | a fingerprint holds no newline, so it stays on its `commit` line of the record |
| Hex.ConcatLowerHex | main.go:269-275 | concatenating hexadecimal digests gives a hexadecimal text |
| Hex.AsciiBytes | main.go:278 | definition of the bytes `io.WriteString` hands the hash; TrackedFilesHash states that the loop hashes these bytes of the builder's content |
| Fingerprinting.FileHash | main.go:283-296 | fileHash: 32 lowercase hexadecimal digits |
| Fingerprinting.FirstMissing | main.go:270-274 | the first tracked file that cannot be opened: every earlier file can be opened |
| Fingerprinting.Digests | main.go:270-275 | definition of the per-file digests in index order; DigestsSnoc and TrackedFilesHash state how the loop builds them |
| Fingerprinting.Fingerprint | main.go:262-281 | trackedFilesHash: "" exactly when nothing is tracked; otherwise a failure exactly when a tracked path is not a working file (missing, or a directory), naming the first such path; otherwise 32 lowercase hexadecimal digits |
| Fingerprinting.Concat | main.go:269-278 | definition of `hashes.String()`; ConcatSnoc and HexDigestsAreHex state what the builder holds |
| Fingerprinting.TrackedFilesHash | main.go:262-281 | the builder loop computes Fingerprint, stopping at the first file it cannot read |
| Fingerprinting.FingerprintOnlyTracked | main.go:262-281 | the fingerprint depends only on the tracked files' bytes: trees that agree on them give the same fingerprint |
| Fingerprinting.Sum | main.go:277-280 | definition of `h.Sum(nil)` over the builder's content; FingerprintDeterminesSum states that the fingerprint renders it without loss |
| Fingerprinting.FingerprintDeterminesSum | main.go:262-281 | two non-empty readable index lists have the same fingerprint exactly when the MD5 sums of their builders' contents are equal |
| Fingerprinting.HexDigestsAreHex | main.go:269-275 | the builder's content is hexadecimal |
| Fingerprinting.ConcatSnoc | main.go:270-275 | writing one more digest into the builder appends it at the end |
| Fingerprinting.DigestsSnoc | main.go:270-275 | one more file adds its digest at the end of the digest list |
| LogView.Reversed | main.go:149 | reversal keeps the length |
| LogView.ReversedAt | main.go:149 | the k-th item of the reversal is the k-th item from the end |
| LogView.ReversedConcat | main.go:149 | reversing a concatenation reverses the parts and swaps them |
| LogView.ReverseInPlace | main.go:149 | slices.Reverse: the array then holds its old contents reversed |
| LogView.ShowLog | main.go:144-154 | logHandler's listing is the log's lines, last line first |
| LogView.Record | main.go:327 | definition of the record text; RecordText ties it to the source's concatenation and RecordLines states how it reads back |
| LogView.RecordText | main.go:327 | a bracketing identity only: Record equals the concatenation written in writeLog; RecordLines states the record's meaning |
| LogView.RecordLines | main.go:327 | a record of newline-free parts reads back as the four lines message, `Author: name`, `commit hash` and a blank line |
| LogView.ListingAfterAppend | main.go:314-331 | after a record is appended, the listing starts with the blank line, the commit line, the author line and the message, followed by the old listing |
| Repository.UserName | main.go:96-109 | getUserName: "" exactly when config.txt is missing or empty; otherwise its whole content |
| Repository.IsFileVersioned | main.go:214-222 | the line search answers true exactly when the path is one of the index lines |
| Repository.DirectoryName | main.go:114-116 | definition of the paths `os.Stat` finds as directories: the working directory (`""`, `.`), its parent and `vcs` |
| Repository.OnDisk | main.go:114-117 | definition of `os.Stat` succeeding: a working file or one of the directory names; TrackAppends and Add state that adding turns on it |
| Repository.EmptyFiles | main.go:196-205 | the empty file `os.Create` leaves under each stored fingerprint when checkout of `""` or `.` copies from directories; it has exactly those names |
| Repository.FingerprintIsFlatName | main.go:198-205 | a fingerprint is a plain file name, so the empty files checkout leaves for `""` and `.` keep the tree's names flat |
| Repository.Track | main.go:115-126 | definition of addHandler's index update; TrackAppends and TrackIdempotent state what it does |
| Repository.TrackAppends | main.go:115-129 | tracking a path `os.Stat` finds (a working file or a directory) that is not yet tracked adds it as the last index line; otherwise the index is unchanged; the index stays whole lines |
| Repository.TrackIdempotent | main.go:120-130 | adding the same path a second time leaves the index as the first add left it |
| Repository.SnapshotOf | main.go:172-176 | definition of a snapshot of the listed files; StoreSnapshot states that the copy loop builds it and RestoreSnapshot that checking it out restores the files |
| Repository.SnapshotSnoc | main.go:172-176 | copying one more file adds that file to the snapshot |
| Repository.RestoreSnapshot | main.go:203-205 | copying a snapshot over any tree gives every snapshot file its committed bytes |
| Repository.StoreSnapshotKeepsValid | main.go:164-176 | storing a snapshot of flat names under a 32-digit fingerprint keeps the store keyed by fingerprints |
| Repository.InsertKeepsOthers | main.go:164-176 | storing a snapshot under a fingerprint not yet stored leaves every existing snapshot as it was |
| Repository.CommitOutcomeOf | main.go:157-187 | definition of commitHandler's branch order; CommitOutcomeCases states when each outcome happens |
| Repository.CommitOutcomeCases | main.go:156-187 | a snapshot is stored exactly when a message is given, something is tracked, every tracked file is present and the fingerprint is new; the failure names a tracked file that is missing; a record is logged exactly when a snapshot is stored and a username is set |
| Repository.Repo.constructor | main.go:38-46 | a fresh repository: the given working tree, nothing tracked, no commits, no log |
| Repository.Repo.Add | main.go:111-142 | addHandler: no path lists the tracked files; a path `os.Stat` cannot find is reported; a tracked path leaves the index alone; an untracked working file or directory name becomes the new last index line; the index only grows |
| Repository.Repo.WriteLog | main.go:314-331 | writeLog: with a username the record is appended, without one the log is unchanged; the log stays whole lines |
| Repository.Repo.StoreSnapshot | main.go:168-176 | the copy loop: the store gains the snapshot of the listed files under the fingerprint, nothing else changes |
| Repository.Repo.CommitMessage | main.go:158-183 | commitHandler once a message is given: the outcome follows the fingerprint and readability, then the existing snapshot, then the username; the store gains a snapshot exactly on a new fingerprint and the log a record exactly on a logged commit |
| Repository.Repo.Commit | main.go:156-187 | commitHandler: the outcome follows the order message, fingerprint and readability, existing snapshot, username; a snapshot is stored only on a new fingerprint and old snapshots are kept; the log only grows, by one record exactly on a logged commit; the invariant is kept |
| Repository.Repo.CommitNew | main.go:164-178 | the new-fingerprint branch: the snapshot is stored before writeLog, so with no username it stays without a record |
| Repository.Repo.Checkout | main.go:189-212 | checkoutHandler: no id or an unknown id leaves the tree alone; a known id overlays the snapshot on the tree, so snapshot files get their committed bytes, other files keep theirs and none is removed; `""` and `.` name the commits directory, leaving an empty working file under every fingerprint |
| Repository.Repo.CopyOver | main.go:203-205 | the copy loop of checkout: the tree becomes the old tree overlaid with the copied files |
| Scenarios.AddTwice | main.go:111-130 | only the index changes; after two adds it is the index after one, and the second add reports the path as tracked, or again as not found |
| Scenarios.CommitTwice | main.go:164-183 | a second commit with nothing changed is "Nothing to commit" when the first stored a snapshot; at most one snapshot and one record are added |
| Scenarios.CommitEditCheckout | main.go:156-212 | commit, overwrite a file, check the commit out: every tracked file has its committed bytes again; the index and config are untouched |
| Scenarios.NothingTracked | main.go:159-161 | with an empty index a commit is "Nothing to commit" |
| Scenarios.FirstCommit | main.go:156-178 | the first commit of one tracked file is stored under its fingerprint, the store then holds exactly that one snapshot of the file's bytes, and the log lists its four lines, the blank one first |
| Scenarios.RepeatedCommit | main.go:179-183 | repeating that commit is "Nothing to commit" and the listing is still exactly the first record's four lines |
| Scenarios.CheckoutUnknown | main.go:191-194 | an id that names no snapshot is reported and the working files stay as they are |
| Scenarios.TrackDirectory | main.go:114-129 | `add .` tracks the working directory, since `os.Stat` finds it, and the next commit stops on it as a path it cannot hash |
| Scenarios.OrphanSnapshot | main.go:314-319 | with no username the snapshot is stored but the log stays empty, and committing again finds nothing to commit |

## Left out

- Real filesystem I/O. The working tree is a map from names to bytes, the index, log and config files are `Option<string>`, and the commit directories are a map from fingerprints to snapshots. Permission errors, partial writes and other `log.Fatal` cases are not modelled: they end the process. The exception is a tracked path that is not a working file.
- The `log.Fatal` of fileHash on a tracked path that cannot be hashed, because it is missing or a directory, becomes the outcome `Unreadable`. In the model nothing has changed at that point, as in the source.
- MD5 is not modelled. It is the parameter `md5`, an uninterpreted total function from bytes to 16 bytes, so no collision property is claimed.
- The working tree holds only top-level files with flat names: not `""`, `.`, `..` or `vcs`, with no `/` and no newline. Subdirectories and nested files are not modelled. The names `""`, `.`, `..` and `vcs` stand for the directories that always exist.
- Repository.Repo.Add: a path with `/` or a newline, for example an existing nested file `a/b`, is answered `NotFound`. The source would track it; a path with a newline would even add two lines to the index. Cleaning by `filepath.Join`, for example `./a` naming `a`, is not modelled either.
- Repository.Repo.Checkout: the id `..` names the `vcs` directory, and the source then copies `index.txt`, `log.txt` and `config.txt` into the working tree and leaves an empty file `commits`. The model answers `NoSuchCommit("..")` and leaves the tree unchanged. Ids with `/` that resolve to an existing directory are answered `NoSuchCommit` the same way.
- The CLI: argument dispatch, `--help`, the unknown-command message and the config write of `config` are not modelled; the text the commands print is reduced to outcome tags. A command without its argument is `None`; an argument that is present but empty is `Some("")`.
- File contents are bytes, but paths, index lines, log lines, usernames, messages and fingerprints are text (`string`), not byte strings. Invalid UTF-8 in those is not modelled.
- Concurrency: two processes racing on the same files are not modelled.
- Repository.Repo.CopyOver: copies the snapshot's files in an unspecified order (a set) rather than `os.ReadDir`'s sorted order. The result does not depend on the order. The ignored `copyFile` errors cannot arise when a snapshot is copied; the one that arises for `""` and `.`, copying from a directory, is modelled as the empty file `os.Create` leaves.
- The `len(list) == 0` branches of listTrackedFiles and listLogs are unreachable, because `strings.Split` never returns an empty slice, and are not modelled.
- Repository.Repo.WriteFile is not a command of the tool. It stands for a user editing a working file between commands.
