/** The slice of Go's `os`, `io`, `bufio` and `path/filepath` that the
    send-message command touches: a filesystem as a map from paths to nodes,
    open handles with an explicit read cursor, `io.ReadAll`, a line scanner,
    `filepath.Ext`, and the sequence of callbacks a directory walk makes. */
module Files {
  import opened Outcomes
  import opened Bytes
  import Seqs

  datatype Node = RegularFile(content: seq<byte>) | Directory

  type FileSystem = map<string, Node>

  /** `os.Stat`: whether the path names a directory, or the not-exist error. */
  function Stat(fs: FileSystem, path: string): (r: Result<bool>)
    ensures r.Ok? <==> path in fs
    ensures r.Ok? ==> r.value == fs[path].Directory?
    ensures r.Err? ==> r.error == PathNotExist(path)
  {
    if path in fs then Ok(fs[path].Directory?) else Err(PathNotExist(path))
  }

  /** An open file: what it refers to and how far it has been read. */
  datatype Handle = Handle(path: string, node: Node, cursor: nat)

  /** `os.Open`: a handle positioned at the start, for files and directories alike. */
  function Open(fs: FileSystem, path: string): (r: Result<Handle>)
    ensures r.Ok? <==> path in fs
    ensures r.Ok? ==> r.value.path == path && r.value.node == fs[path] && r.value.cursor == 0
    ensures r.Err? ==> r.error == PathNotExist(path)
  {
    if path in fs then Ok(Handle(path, fs[path], 0)) else Err(PathNotExist(path))
  }

  /** The bytes a read from `h` would still deliver. */
  function Remaining(h: Handle): seq<byte>
  {
    match h.node
    case RegularFile(c) => if h.cursor <= |c| then c[h.cursor..] else []
    case Directory => []
  }

  /** What `io.ReadAll` returns, plus the handle it leaves behind. */
  datatype Read = Read(data: seq<byte>, err: Option<Error>, after: Handle)

  /** `io.ReadAll`: delivers the rest of the file and leaves the cursor at the
      end, so nothing remains for a later reader; on a directory every read
      fails and nothing is delivered. */
  function ReadAll(h: Handle): (r: Read)
    ensures r.data == Remaining(h)
    ensures Remaining(r.after) == []
    ensures r.after.path == h.path && r.after.node == h.node
    ensures r.err.Some? <==> h.node.Directory?
  {
    match h.node
    case RegularFile(c) => Read(Remaining(h), None, h.(cursor := |c|))
    case Directory => Read([], Some(ReadFailed(h.path)), h)
  }

  /** `line` minus one trailing carriage return, as `bufio.ScanLines` strips it. */
  function DropCR(line: seq<byte>): (r: seq<byte>)
    ensures r == line || (r + [CarriageReturn] == line)
    ensures Newline !in line ==> Newline !in r
  {
    if |line| > 0 && line[|line| - 1] == CarriageReturn then line[..|line| - 1] else line
  }

  predicate EndsInCR(line: seq<byte>)
  {
    |line| > 0 && line[|line| - 1] == CarriageReturn
  }

  /** The tokens `bufio.ScanLines` yields for `data`: the newline-separated
      pieces, without a final empty piece, each with one trailing carriage
      return removed. */
  function Lines(data: seq<byte>): (lines: seq<seq<byte>>)
    ensures forall i | 0 <= i < |lines| :: Newline !in lines[i]
    ensures |data| == 0 ==> lines == []
  {
    var parts := Seqs.Split(data, Newline);
    var kept := DropFinalEmpty(parts);
    assert forall i | 0 <= i < |kept| :: Newline !in kept[i] by {
      forall i | 0 <= i < |kept| ensures Newline !in kept[i] {
        assert kept[i] == parts[i];
      }
    }
    Seqs.Map(kept, DropCR)
  }

  /** `pieces` without its last piece when that one is empty. */
  function DropFinalEmpty(pieces: seq<seq<byte>>): (kept: seq<seq<byte>>)
    requires |pieces| >= 1
    ensures |kept| <= |pieces| && kept == pieces[..|kept|]
    ensures |kept| == |pieces| <==> |pieces[|pieces| - 1]| > 0
  {
    if |pieces[|pieces| - 1]| == 0 then pieces[..|pieces| - 1] else pieces
  }

  /** `lines`, each followed by a newline: how a JSON-lines file is laid out. */
  function Terminated(lines: seq<seq<byte>>): seq<byte>
  {
    if |lines| == 0 then [] else lines[0] + [Newline] + Terminated(lines[1..])
  }

  /** Terminated lines followed by a last piece are the join of all of them. */
  lemma {:induction false} TerminatedThenJoin(lines: seq<seq<byte>>, last: seq<byte>)
    ensures Terminated(lines) + last == Seqs.Join(lines + [last], Newline)
  {
    if |lines| == 0 {
      assert lines + [last] == [last];
    } else {
      var parts := lines + [last];
      TerminatedThenJoin(lines[1..], last);
      assert parts[0] == lines[0] && parts[1..] == lines[1..] + [last];
      assert Seqs.Join(parts, Newline) == lines[0] + [Newline] + Seqs.Join(lines[1..] + [last], Newline);
      assert Terminated(lines) + last == lines[0] + [Newline] + (Terminated(lines[1..]) + last);
    }
  }

  /** Scanning the newline-join of CR-free, newline-free pieces yields the
      pieces, except for a final empty one. */
  lemma LinesOfJoin(parts: seq<seq<byte>>)
    requires |parts| >= 1
    requires forall i | 0 <= i < |parts| :: Newline !in parts[i] && !EndsInCR(parts[i])
    ensures Lines(Seqs.Join(parts, Newline)) == DropFinalEmpty(parts)
  {
    var data := Seqs.Join(parts, Newline);
    assert Seqs.Split(data, Newline) == parts by {
      Seqs.SplitJoin(parts, Newline);
    }
    var kept := DropFinalEmpty(parts);
    assert Lines(data) == Seqs.Map(kept, DropCR);
    assert forall i | 0 <= i < |kept| :: !EndsInCR(kept[i]) by {
      forall i | 0 <= i < |kept| ensures !EndsInCR(kept[i]) {
        assert kept[i] == parts[i];
      }
    }
    DropCRKeepsLines(kept);
  }

  /** Scanning a file of newline-terminated lines yields exactly those lines. */
  lemma LinesOfTerminated(lines: seq<seq<byte>>)
    requires forall i | 0 <= i < |lines| :: Newline !in lines[i] && !EndsInCR(lines[i])
    ensures Lines(Terminated(lines)) == lines
  {
    var parts := lines + [[]];
    CleanLinesAppend(lines, []);
    assert Terminated(lines) == Seqs.Join(parts, Newline) by {
      TerminatedThenJoin(lines, []);
      assert Terminated(lines) + [] == Terminated(lines);
    }
    LinesOfJoin(parts);
    assert DropFinalEmpty(parts) == lines;
  }

  /** A last line without its newline is still a line of its own. */
  lemma LinesOfUnterminatedLast(lines: seq<seq<byte>>, last: seq<byte>)
    requires forall i | 0 <= i < |lines| :: Newline !in lines[i] && !EndsInCR(lines[i])
    requires |last| > 0 && Newline !in last && !EndsInCR(last)
    ensures Lines(Terminated(lines) + last) == lines + [last]
  {
    var parts := lines + [last];
    CleanLinesAppend(lines, last);
    assert Terminated(lines) + last == Seqs.Join(parts, Newline) by {
      TerminatedThenJoin(lines, last);
    }
    LinesOfJoin(parts);
    assert DropFinalEmpty(parts) == parts;
  }

  lemma CleanLinesAppend(lines: seq<seq<byte>>, last: seq<byte>)
    requires forall i | 0 <= i < |lines| :: Newline !in lines[i] && !EndsInCR(lines[i])
    requires Newline !in last && !EndsInCR(last)
    ensures forall i | 0 <= i < |lines + [last]| :: Newline !in (lines + [last])[i] && !EndsInCR((lines + [last])[i])
  {
    forall i | 0 <= i < |lines + [last]|
      ensures Newline !in (lines + [last])[i] && !EndsInCR((lines + [last])[i])
    {
      if i < |lines| { assert (lines + [last])[i] == lines[i]; }
    }
  }

  lemma DropCRKeepsLines(lines: seq<seq<byte>>)
    requires forall i | 0 <= i < |lines| :: !EndsInCR(lines[i])
    ensures Seqs.Map(lines, DropCR) == lines
  {
    var r := Seqs.Map(lines, DropCR);
    assert forall i | 0 <= i < |lines| :: r[i] == lines[i];
  }

  /** What a scanner over `h` produces before `Scan` first returns false, and
      what `Err` then reports. */
  datatype Scan = Scan(tokens: seq<seq<byte>>, err: Option<Error>)

  /** A `bufio.Scanner` with the default line splitter, run to the end: the
      lines of whatever is left to read; on a directory the first read fails. */
  function ScanLines(h: Handle): (s: Scan)
    ensures h.node.RegularFile? ==> s.err == None && s.tokens == Lines(Remaining(h))
    ensures h.node.Directory? ==> s.tokens == [] && s.err == Some(ReadFailed(h.path))
  {
    match h.node
    case RegularFile(_) => Scan(Lines(Remaining(h)), None)
    case Directory => Scan([], Some(ReadFailed(h.path)))
  }

  /** The last element of `path` (what follows its last `/`) has no dot. */
  predicate NoDotInLastElement(path: string)
  {
    forall i | 0 <= i < |path| && path[i] == '.' :: '/' in path[i + 1..]
  }

  /** A path ending in `/` has an empty last element. */
  lemma SlashEndsElement(path: string)
    requires |path| > 0 && path[|path| - 1] == '/'
    ensures NoDotInLastElement(path)
  {
    forall i | 0 <= i < |path| && path[i] == '.' ensures '/' in path[i + 1..] {
      assert path[i + 1..][|path| - i - 2] == '/';
    }
  }

  /** Appending a character other than a dot keeps a dot-free last element
      dot-free. */
  lemma NoDotExtends(path: string)
    requires |path| > 0 && path[|path| - 1] != '.'
    requires NoDotInLastElement(path[..|path| - 1])
    ensures NoDotInLastElement(path)
  {
    var init := path[..|path| - 1];
    forall i | 0 <= i < |path| && path[i] == '.' ensures '/' in path[i + 1..] {
      assert init[i] == '.';
      var k :| i + 1 <= k < |init| && init[k] == '/';
      assert path[i + 1..][k - i - 1] == '/';
    }
  }

  /** `filepath.Ext`: the suffix of the last element of `path` that starts at
      its last dot, or empty when that element has no dot. */
  function Ext(path: string): (e: string)
    ensures e == "" || (e[0] == '.' && '.' !in e[1..])
    ensures '/' !in e
    ensures |e| <= |path| && path[|path| - |e|..] == e
    ensures e == "" ==> NoDotInLastElement(path)
    decreases |path|
  {
    if |path| == 0 then ""
    else
      var c := path[|path| - 1];
      if c == '/' then
        SlashEndsElement(path);
        ""
      else if c == '.' then "."
      else
        var init := path[..|path| - 1];
        var e := Ext(init);
        if e == "" then
          NoDotExtends(path);
          ""
        else
          SuffixExtends(path, |e|);
          e + [c]
  }

  /** A suffix of `path` is the same-length suffix of its prefix without
      the last character, followed by that character. */
  lemma SuffixExtends(path: string, n: nat)
    requires n < |path|
    ensures path[|path| - n - 1..] == path[..|path| - 1][|path| - 1 - n..] + [path[|path| - 1]]
  {
  }

  /** The extension is empty exactly when the last element has no dot. */
  lemma ExtEmptyIff(path: string)
    ensures Ext(path) == "" <==> NoDotInLastElement(path)
  {
    var e := Ext(path);
    if e != "" {
      var i := |path| - |e|;
      assert path[i] == '.';
      assert path[i + 1..] == e[1..];
    }
  }

  /** One call a directory walk makes to its callback: a visited entry
      (the root itself, subdirectories and files alike), or an error. */
  datatype WalkEvent =
    | Visit(path: string, name: string, isDir: bool)
    | WalkFailed(path: string, error: Error)

  /** The visits the walk delivers before its first error. */
  function Visits(walk: seq<WalkEvent>): (v: seq<WalkEvent>)
    ensures |v| <= |walk| && v == walk[..|v|]
    ensures forall i | 0 <= i < |v| :: v[i].Visit?
    ensures |v| < |walk| ==> walk[|v|].WalkFailed?
  {
    if |walk| == 0 || walk[0].WalkFailed? then [] else [walk[0]] + Visits(walk[1..])
  }

  /** A walk whose first `j` events are visits delivers its event `j` too. */
  lemma VisitsReach(walk: seq<WalkEvent>, j: int)
    requires 0 <= j < |walk| && walk[j].Visit?
    requires forall i | 0 <= i < j :: walk[i].Visit?
    ensures j < |Visits(walk)| && Visits(walk)[j] == walk[j]
  {
  }
}
