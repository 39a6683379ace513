/**
  The line-oriented text files of the repository (the index and the log).

  A file is read with `strings.Split(content, "\n")` and the last piece is
  dropped; a file that does not exist reads as no lines. It is written by
  appending (`O_APPEND|O_CREATE`), never by rewriting.
 */
module Lines {
  import opened Wrappers

  /** Joins pieces with a newline between consecutive ones; the inverse of Split. */
  function Join(pieces: seq<string>): string
  {
    if |pieces| == 0 then ""
    else if |pieces| == 1 then pieces[0]
    else pieces[0] + "\n" + Join(pieces[1..])
  }

  /**
    `strings.Split(s, "\n")`: the maximal newline-free pieces of `s`, in order.
    There is always at least one piece, so `Split("") == [""]`.
   */
  function Split(s: string): (pieces: seq<string>)
    ensures |pieces| >= 1
    ensures forall k :: 0 <= k < |pieces| ==> '\n' !in pieces[k]
    ensures Join(pieces) == s
    decreases |s|
  {
    if s == [] then [""]
    else
      var rest := Split(s[1..]);
      if s[0] == '\n' then
        assert ([""] + rest)[1..] == rest;
        [""] + rest
      else
        var first := [s[0]] + rest[0];
        assert s == [s[0]] + s[1..];
        assert |rest| > 1 ==> Join(rest) == rest[0] + "\n" + Join(rest[1..]);
        assert ([first] + rest[1..])[1..] == rest[1..];
        [first] + rest[1..]
  }

  /** A text that is empty or ends with a newline: what appending whole lines produces. */
  predicate WellFormed(content: string)
  {
    content == [] || content[|content| - 1] == '\n'
  }

  /** The lines of a text: the pieces of Split without the last one. */
  function Decode(content: string): (lines: seq<string>)
    ensures forall k :: 0 <= k < |lines| ==> '\n' !in lines[k]
    ensures '\n' !in content ==> lines == []
  {
    var pieces := Split(content);
    assert '\n' !in content ==> pieces == [content] by {
      if '\n' !in content { SplitNoNewline(content); }
    }
    pieces[..|pieces| - 1]
  }

  /** Writes each line followed by a newline. */
  function Encode(lines: seq<string>): (content: string)
    ensures WellFormed(content)
    ensures content == [] <==> lines == []
  {
    if lines == [] then "" else lines[0] + "\n" + Encode(lines[1..])
  }

  /** The content of a file, a missing file reading as empty. */
  function Text(file: Option<string>): string
  {
    file.GetOr("")
  }

  /**
    listTrackedFiles / listLogs: the lines of a file; a missing file
    has no lines, exactly as an empty one.
   */
  function ListLines(file: Option<string>): (lines: seq<string>)
    ensures lines == Decode(Text(file))
    ensures file == None || file == Some("") ==> lines == []
  {
    match file
    case None => []
    case Some(content) => Decode(content)
  }

  /** Appending `data` to a file, creating it when it is missing. */
  function AppendFile(file: Option<string>, data: string): (file': Option<string>)
    ensures file'.Some?
    ensures Text(file') == Text(file) + data
  {
    Some(Text(file) + data)
  }

  /** A newline-free text is a single piece. */
  lemma {:induction false} SplitNoNewline(s: string)
    requires '\n' !in s
    ensures Split(s) == [s]
    decreases |s|
  {
    if s != [] {
      assert '\n' !in s[1..] by {
        forall k | 0 <= k < |s[1..]| ensures s[1..][k] != '\n' { assert s[1..][k] == s[k + 1]; }
      }
      SplitNoNewline(s[1..]);
      assert s == [s[0]] + s[1..];
    }
  }

  /** Splitting at a newline splits the two sides independently. */
  lemma {:induction false} SplitAtNewline(a: string, b: string)
    ensures Split(a + "\n" + b) == Split(a) + Split(b)
    decreases |a|
  {
    var s := a + "\n" + b;
    if a == [] {
      assert s == "\n" + b;
      assert s[1..] == b;
    } else {
      assert s[0] == a[0];
      assert s[1..] == a[1..] + "\n" + b;
      SplitAtNewline(a[1..], b);
    }
  }

  /** Decoding a concatenation of whole-line texts decodes each part. */
  lemma DecodeConcat(a: string, b: string)
    requires WellFormed(a)
    ensures Decode(a + b) == Decode(a) + Decode(b)
  {
    if a == [] {
      assert a + b == b;
    } else {
      var a' := a[..|a| - 1];
      assert a == a' + "\n" + "";
      assert a + b == a' + "\n" + b;
      SplitAtNewline(a', b);
      SplitAtNewline(a', "");
      var p, q := Split(a'), Split(b);
      assert (p + q)[..|p + q| - 1] == p + q[..|q| - 1];
      assert (p + [""])[..|p + [""]| - 1] == p;
    }
  }

  /**
    The index property: appending `p + "\n"` to a whole-line text adds
    exactly `p` at the end of its lines.
   */
  lemma DecodeAppendLine(content: string, p: string)
    requires WellFormed(content)
    requires '\n' !in p
    ensures Decode(content + p + "\n") == Decode(content) + [p]
  {
    DecodeConcat(content, p + "\n");
    assert p + "\n" == p + "\n" + "";
    SplitAtNewline(p, "");
    SplitNoNewline(p);
    assert content + p + "\n" == content + (p + "\n");
  }

  /** Decode inverts Encode for newline-free lines. */
  lemma {:induction false} DecodeEncode(lines: seq<string>)
    requires forall k :: 0 <= k < |lines| ==> '\n' !in lines[k]
    ensures Decode(Encode(lines)) == lines
  {
    if lines != [] {
      var rest := lines[1..];
      assert forall k :: 0 <= k < |rest| ==> '\n' !in rest[k] by {
        forall k | 0 <= k < |rest| ensures '\n' !in rest[k] { assert rest[k] == lines[k + 1]; }
      }
      DecodeEncode(rest);
      DecodeAppendLine("", lines[0]);
      assert "" + lines[0] + "\n" == lines[0] + "\n";
      DecodeConcat(lines[0] + "\n", Encode(rest));
      assert lines == [lines[0]] + rest;
    }
  }

  /** Encode inverts Decode on whole-line texts. */
  lemma {:induction false} EncodeDecode(content: string)
    requires WellFormed(content)
    ensures Encode(Decode(content)) == content
    decreases |content|
  {
    if content != [] {
      var i := FirstNewline(content);
      var line, rest := content[..i], content[i + 1..];
      assert content == line + "\n" + rest;
      assert '\n' !in line by {
        forall k | 0 <= k < |line| ensures line[k] != '\n' { assert line[k] == content[k]; }
      }
      assert WellFormed(rest) by {
        if rest != [] { assert rest[|rest| - 1] == content[|content| - 1]; }
      }
      assert WellFormed(line + "\n");
      DecodeConcat(line + "\n", rest);
      assert content == (line + "\n") + rest;
      DecodeAppendLine("", line);
      assert "" + line + "\n" == line + "\n";
      EncodeDecode(rest);
      assert Decode(content) == [line] + Decode(rest);
      assert ([line] + Decode(rest))[1..] == Decode(rest);
    }
  }

  /** The position of the first newline of a non-empty whole-line text. */
  function FirstNewline(content: string): (i: nat)
    requires WellFormed(content) && content != []
    ensures i < |content| && content[i] == '\n'
    ensures forall k :: 0 <= k < i ==> content[k] != '\n'
    decreases |content|
  {
    if content[0] == '\n' then 0
    else
      assert WellFormed(content[1..]) by {
        if |content| == 1 { assert false; }
      }
      1 + FirstNewline(content[1..])
  }
}
