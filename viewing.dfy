/**
 * `/cat` and `/tail`: the file is the arguments joined with spaces, joined
 * onto the current directory. Opening a file without read permission and
 * decoding one that is not UTF-8 text both end in the handler's error reply.
 */
module Viewing {
  import opened Text
  import opened Paths
  import opened FileTree
  import opened Messages

  datatype ViewReply =
    | ViewUsage
    | ViewMissing
    | ViewNotFile
    | ViewFailed
    | Shown(filename: string, text: string)

  /** What the checks before reading find. */
  datatype Access =
    | NoArgs
    | NotFound
    | NotAFile
    | Unreadable
    | Readable(filename: string, lines: seq<string>)

  /** `open(p, 'r')` succeeds and reading the file to the end decodes. */
  predicate OpensAsText(fs: Node, p: Path)
  {
    IsFileAt(fs, p) && Lookup(fs, p).value.readable && Lookup(fs, p).value.text
  }

  /**
   * The file named by the arguments, when it is a regular file that opens and
   * decodes. The existence test is on the joined text, so a name followed by
   * `/` is found only as a directory.
   */
  function Open(fs: Node, cur: Path, args: seq<string>): (a: Access)
    ensures a == NoArgs <==> args == []
    ensures a == NotFound <==> args != [] && !ExistsJoined(fs, cur, Join(args, " "))
    ensures a == NotAFile <==>
      args != [] && ExistsJoined(fs, cur, Join(args, " ")) && !IsFileAt(fs, Joined(cur, Join(args, " ")))
    ensures a == Unreadable <==>
      args != [] && ExistsJoined(fs, cur, Join(args, " ")) && IsFileAt(fs, Joined(cur, Join(args, " "))) &&
      !OpensAsText(fs, Joined(cur, Join(args, " ")))
    ensures a.Readable? <==>
      args != [] && ExistsJoined(fs, cur, Join(args, " ")) && OpensAsText(fs, Joined(cur, Join(args, " ")))
    ensures a.Readable? ==>
      a.filename == Join(args, " ") && a.lines == Lookup(fs, Joined(cur, a.filename)).value.lines
  {
    if args == [] then NoArgs
    else
      var filename := Join(args, " ");
      var full := Joined(cur, filename);
      if !ExistsJoined(fs, cur, filename) then NotFound
      else if !IsFileAt(fs, full) then NotAFile
      else
        var f := Lookup(fs, full).value;
        if !f.readable || !f.text then Unreadable else Readable(filename, f.lines)
  }

  /** The reply when the file could not be read. */
  function Refusal(a: Access): ViewReply
    requires !a.Readable?
  {
    match a
    case NoArgs => ViewUsage
    case NotFound => ViewMissing
    case NotAFile => ViewNotFile
    case Unreadable => ViewFailed
  }

  /** `/cat <file...>`: at most the first thousand characters of a readable text file. */
  function Cat(fs: Node, cur: Path, args: seq<string>): (r: ViewReply)
    ensures r.Shown? <==> Open(fs, cur, args).Readable?
    ensures !Open(fs, cur, args).Readable? ==> r == Refusal(Open(fs, cur, args))
    ensures r.Shown? ==>
      var whole := Concat(Open(fs, cur, args).lines);
      r.filename == Join(args, " ") && r.text <= whole && |r.text| == Min(CatLimit, |whole|)
  {
    match Open(fs, cur, args)
    case Readable(filename, lines) => Shown(filename, CatText(lines))
    case a => Refusal(a)
  }

  /** `/tail <file...>`: the last ten lines of a readable text file. */
  function Tail(fs: Node, cur: Path, args: seq<string>): (r: ViewReply)
    ensures r.Shown? <==> Open(fs, cur, args).Readable?
    ensures !Open(fs, cur, args).Readable? ==> r == Refusal(Open(fs, cur, args))
    ensures r.Shown? ==>
      var lines := Open(fs, cur, args).lines;
      r.filename == Join(args, " ") &&
      Concat(lines) == Concat(lines[..|lines| - |LastLines(lines)|]) + r.text
  {
    match Open(fs, cur, args)
    case Readable(filename, lines) =>
      TailIsSuffix(lines);
      Shown(filename, TailText(lines))
    case a => Refusal(a)
  }

  /** A file of at most ten lines is shown whole by `/tail`, and one of at most a thousand characters by `/cat`. */
  lemma ShortFilesWhole(fs: Node, cur: Path, args: seq<string>)
    requires Open(fs, cur, args).Readable?
    ensures |Open(fs, cur, args).lines| <= TailLines ==> Tail(fs, cur, args).text == Concat(Open(fs, cur, args).lines)
    ensures |Concat(Open(fs, cur, args).lines)| <= CatLimit ==> Cat(fs, cur, args).text == Concat(Open(fs, cur, args).lines)
  {
    var whole := Concat(Open(fs, cur, args).lines);
    assert whole[..|whole|] == whole;
  }

  /** `/cat name/` and `/tail name/` on a regular file `name` report that the file does not exist. */
  lemma SlashedFileMissing(fs: Node, cur: Path, name: string)
    requires IsNormal(cur) && IsName(name) && IsFileAt(fs, cur + [name])
    ensures Cat(fs, cur, [name + "/"]) == ViewMissing
    ensures Tail(fs, cur, [name + "/"]) == ViewMissing
  {
    SlashedExists(fs, cur, name);
    assert Join([name + "/"], " ") == name + "/";
  }
}
