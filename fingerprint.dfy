/**
  The fingerprint engine: fileHash and trackedFilesHash.

  MD5 (`crypto/md5`) is not modelled: it is a parameter of type Hasher,
  any total function from bytes to 16 bytes.
 */
module Fingerprinting {
  import opened Wrappers
  import opened Hex

  /** A 16-byte MD5 sum. */
  type Digest = d: seq<byte> | |d| == 16 witness seq(16, _ => 0)

  /** The hash function, left uninterpreted. */
  type Hasher = seq<byte> -> Digest

  /** The working tree: the bytes of each file, by name. */
  type Tree = map<string, seq<byte>>

  /** fileHash: the hexadecimal MD5 sum of a file's bytes. */
  function FileHash(md5: Hasher, content: seq<byte>): (h: string)
    ensures |h| == 32 && IsLowerHex(h)
  {
    HexEncode(md5(content))
  }

  /** Every listed file is present in the tree (so `os.Open` succeeds on it). */
  predicate AllPresent(tree: Tree, files: seq<string>)
  {
    forall k :: 0 <= k < |files| ==> files[k] in tree
  }

  /** The position of the first listed file missing from the tree. */
  function FirstMissing(tree: Tree, files: seq<string>): (k: nat)
    requires !AllPresent(tree, files)
    ensures k < |files| && files[k] !in tree
    ensures AllPresent(tree, files[..k])
  {
    if files[0] !in tree then 0
    else
      assert !AllPresent(tree, files[1..]) by {
        var k :| 0 <= k < |files| && files[k] !in tree;
        assert files[1..][k - 1] == files[k];
      }
      var k := FirstMissing(tree, files[1..]);
      assert files[..k + 1] == [files[0]] + files[1..][..k];
      1 + k
  }

  /** The per-file digests of the listed files, in list order. */
  function Digests(md5: Hasher, tree: Tree, files: seq<string>): (ds: seq<string>)
    requires AllPresent(tree, files)
    ensures |ds| == |files|
    ensures forall k :: 0 <= k < |files| ==> ds[k] == FileHash(md5, tree[files[k]])
  {
    seq(|files|, k requires 0 <= k < |files| => FileHash(md5, tree[files[k]]))
  }

  /** The concatenation of a list of texts, front to back. */
  function Concat(parts: seq<string>): string
  {
    if parts == [] then "" else parts[0] + Concat(parts[1..])
  }

  lemma {:induction false} ConcatSnoc(parts: seq<string>, last: string)
    ensures Concat(parts + [last]) == Concat(parts) + last
  {
    if parts == [] {
      assert [] + [last] == [last];
    } else {
      assert (parts + [last])[1..] == parts[1..] + [last];
      ConcatSnoc(parts[1..], last);
    }
  }

  /**
    trackedFilesHash over the tracked list `files`: "" when nothing is tracked;
    otherwise, when every file can be read, the hexadecimal MD5 sum of the
    in-order concatenation of each file's hexadecimal digest; a failure
    naming the first file that cannot be read (the `log.Fatal` of fileHash).
   */
  function Fingerprint(md5: Hasher, tree: Tree, files: seq<string>): (r: Result<string, string>)
    ensures r == Success("") <==> files == []
    ensures r.Success? <==> files == [] || AllPresent(tree, files)
    ensures r.Success? && files != [] ==> |r.value| == 32 && IsLowerHex(r.value)
    ensures r.Failure? ==> r.error == files[FirstMissing(tree, files)]
  {
    if files == [] then Success("")
    else if !AllPresent(tree, files) then Failure(files[FirstMissing(tree, files)])
    else Success(HexEncode(Sum(md5, tree, files)))
  }

  /** The MD5 sum of the builder's content: the in-order concatenation of the per-file digests. */
  function Sum(md5: Hasher, tree: Tree, files: seq<string>): Digest
    requires AllPresent(tree, files)
  {
    var hashes := Concat(Digests(md5, tree, files));
    HexDigestsAreHex(Digests(md5, tree, files));
    md5(AsciiBytes(hashes))
  }

  /**
    Two non-empty readable lists have the same fingerprint exactly when the
    builder's contents have the same MD5 sum: `%x` loses nothing.
   */
  lemma FingerprintDeterminesSum(md5: Hasher, t1: Tree, f1: seq<string>, t2: Tree, f2: seq<string>)
    requires f1 != [] && AllPresent(t1, f1)
    requires f2 != [] && AllPresent(t2, f2)
    ensures Fingerprint(md5, t1, f1) == Fingerprint(md5, t2, f2) <==> Sum(md5, t1, f1) == Sum(md5, t2, f2)
  {
    if Fingerprint(md5, t1, f1) == Fingerprint(md5, t2, f2) {
      HexEncodeInjective(Sum(md5, t1, f1), Sum(md5, t2, f2));
    }
  }

  lemma {:induction false} HexDigestsAreHex(parts: seq<string>)
    requires forall k :: 0 <= k < |parts| ==> IsLowerHex(parts[k])
    ensures IsLowerHex(Concat(parts))
  {
    if parts != [] {
      HexDigestsAreHex(parts[1..]);
      ConcatLowerHex(parts[0], Concat(parts[1..]));
    }
  }

  /**
    The fingerprint reads only the tracked files: two trees that agree on
    the bytes of every tracked file give the same fingerprint, whatever
    else they hold.
   */
  lemma FingerprintOnlyTracked(md5: Hasher, t1: Tree, t2: Tree, files: seq<string>)
    requires forall k :: 0 <= k < |files| ==> (files[k] in t1 <==> files[k] in t2)
    requires forall k :: 0 <= k < |files| && files[k] in t1 ==> t1[files[k]] == t2[files[k]]
    ensures Fingerprint(md5, t1, files) == Fingerprint(md5, t2, files)
  {
    if files != [] && AllPresent(t1, files) {
      assert Digests(md5, t1, files) == Digests(md5, t2, files);
    } else if files != [] {
      var k1 := FirstMissing(t1, files);
      assert files[k1] !in t2;
      var k2 := FirstMissing(t2, files);
      assert forall j :: 0 <= j < k1 ==> files[j] in t1 by {
        forall j | 0 <= j < k1 ensures files[j] in t1 { assert files[..k1][j] == files[j]; }
      }
      assert forall j :: 0 <= j < k2 ==> files[j] in t2 by {
        forall j | 0 <= j < k2 ensures files[j] in t2 { assert files[..k2][j] == files[j]; }
      }
    }
  }

  /** The digests of a prefix one longer add that file's digest at the end. */
  lemma DigestsSnoc(md5: Hasher, tree: Tree, files: seq<string>, i: nat)
    requires i < |files| && AllPresent(tree, files[..i + 1])
    ensures AllPresent(tree, files[..i])
    ensures Digests(md5, tree, files[..i + 1])
         == Digests(md5, tree, files[..i]) + [FileHash(md5, tree[files[i]])]
  {
    assert forall k :: 0 <= k < i ==> files[..i][k] == files[..i + 1][k];
    assert files[..i + 1][i] == files[i];
  }

  /**
    trackedFilesHash: the loop that feeds each file's digest into a string
    builder, then hashes the whole; it computes Fingerprint.
   */
  method TrackedFilesHash(md5: Hasher, tree: Tree, files: seq<string>) returns (r: Result<string, string>)
    ensures r == Fingerprint(md5, tree, files)
  {
    if |files| == 0 {
      return Success("");
    }
    var hashes := "";
    for i := 0 to |files|
      invariant AllPresent(tree, files[..i])
      invariant hashes == Concat(Digests(md5, tree, files[..i]))
      invariant IsLowerHex(hashes)
    {
      if files[i] !in tree {
        assert FirstMissing(tree, files) == i by {
          var k := FirstMissing(tree, files);
          assert forall j :: 0 <= j < i ==> files[j] in tree by {
            forall j | 0 <= j < i ensures files[j] in tree { assert files[..i][j] == files[j]; }
          }
          assert forall j :: 0 <= j < k ==> files[j] in tree by {
            forall j | 0 <= j < k ensures files[j] in tree { assert files[..k][j] == files[j]; }
          }
        }
        return Failure(files[i]);
      }
      var h := FileHash(md5, tree[files[i]]);
      assert files[..i + 1] == files[..i] + [files[i]];
      DigestsSnoc(md5, tree, files, i);
      ConcatSnoc(Digests(md5, tree, files[..i]), h);
      ConcatLowerHex(hashes, h);
      hashes := hashes + h;
    }
    assert files[..|files|] == files;
    return Success(HexEncode(md5(AsciiBytes(hashes))));
  }
}
