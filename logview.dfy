/**
  The commit log: the record writeLog appends, and the listing of logHandler,
  which prints the log's lines last first (line by line, not record by record).
 */
module LogView {
  import opened Wrappers
  import opened Lines

  /** A sequence back to front. */
  function Reversed<T>(s: seq<T>): (r: seq<T>)
    ensures |r| == |s|
  {
    if s == [] then [] else Reversed(s[1..]) + [s[0]]
  }

  lemma {:induction false} ReversedAt<T>(s: seq<T>, k: nat)
    requires k < |s|
    ensures Reversed(s)[k] == s[|s| - 1 - k]
  {
    if k < |s| - 1 {
      ReversedAt(s[1..], k);
    }
  }

  /** Reversing a concatenation reverses and swaps the parts. */
  lemma {:induction false} ReversedConcat<T>(a: seq<T>, b: seq<T>)
    ensures Reversed(a + b) == Reversed(b) + Reversed(a)
  {
    if a == [] {
      assert a + b == b;
    } else {
      assert (a + b)[1..] == a[1..] + b;
      ReversedConcat(a[1..], b);
    }
  }

  /** slices.Reverse: swaps the ends pairwise, moving inward. */
  method ReverseInPlace(a: array<string>)
    modifies a
    ensures a[..] == Reversed(old(a[..]))
  {
    var i, j := 0, a.Length - 1;
    while i < j
      invariant 0 <= i <= a.Length && j == a.Length - 1 - i
      invariant i <= j + 1
      invariant forall k :: 0 <= k < i ==> a[k] == old(a[a.Length - 1 - k]) && a[a.Length - 1 - k] == old(a[k])
      invariant forall k :: i <= k <= j ==> a[k] == old(a[k])
    {
      a[i], a[j] := a[j], a[i];
      i, j := i + 1, j - 1;
    }
    forall k | 0 <= k < a.Length ensures a[..][k] == Reversed(old(a[..]))[k] {
      ReversedAt(old(a[..]), k);
    }
  }

  /** logHandler: the lines of the log file, most recent first; empty means "No commits yet." */
  method ShowLog(logFile: Option<string>) returns (listing: seq<string>)
    ensures listing == Reversed(ListLines(logFile))
  {
    var records := ListLines(logFile);
    var a := new string[|records|](k requires 0 <= k < |records| => records[k]);
    assert a[..] == records;
    ReverseInPlace(a);
    listing := a[..];
  }

  /** The four-line block writeLog appends for one commit. */
  function Record(message: string, author: string, hash: string): string
  {
    message + "\n" + ("Author: " + author) + "\n" + ("commit " + hash) + "\n" + "\n"
  }

  /** The record is the text writeLog builds, one newline-led label after another. */
  lemma RecordText(message: string, author: string, hash: string)
    ensures Record(message, author, hash) == message + "\nAuthor: " + author + "\ncommit " + hash + "\n\n"
  {
  }

  /** A record of newline-free parts reads back as its four lines, the last one blank. */
  lemma RecordLines(message: string, author: string, hash: string)
    requires '\n' !in message && '\n' !in author && '\n' !in hash
    ensures Decode(Record(message, author, hash)) == [message, "Author: " + author, "commit " + hash, ""]
  {
    var lines := [message, "Author: " + author, "commit " + hash, ""];
    assert '\n' !in "Author: " + author;
    assert '\n' !in "commit " + hash;
    assert Encode(lines) == Record(message, author, hash) by {
      assert lines[3..] == [""] && [""][1..] == [];
      assert Encode(lines[3..]) == "\n";
      assert lines[2..][1..] == lines[3..];
      assert Encode(lines[2..]) == "commit " + hash + "\n" + "\n";
      assert lines[1..][1..] == lines[2..];
      assert Encode(lines[1..]) == "Author: " + author + "\n" + ("commit " + hash + "\n" + "\n");
    }
    DecodeEncode(lines);
  }

  /**
    After a record is appended, the listing begins with that record's
    lines reversed (the blank separator first, the message last), followed
    by the previous listing.
   */
  lemma ListingAfterAppend(logFile: Option<string>, message: string, author: string, hash: string)
    requires WellFormed(Text(logFile))
    requires '\n' !in message && '\n' !in author && '\n' !in hash
    ensures Reversed(ListLines(AppendFile(logFile, Record(message, author, hash))))
         == ["", "commit " + hash, "Author: " + author, message] + Reversed(ListLines(logFile))
  {
    var rec := [message, "Author: " + author, "commit " + hash, ""];
    DecodeConcat(Text(logFile), Record(message, author, hash));
    RecordLines(message, author, hash);
    ReversedConcat(ListLines(logFile), rec);
    assert Reversed(rec) == ["", "commit " + hash, "Author: " + author, message] by {
      ReversedAt(rec, 0);
      ReversedAt(rec, 1);
      ReversedAt(rec, 2);
      ReversedAt(rec, 3);
    }
  }
}
