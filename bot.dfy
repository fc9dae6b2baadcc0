/**
 * `FileServerBot`: the session state (the current directory and the
 * bookmarks) and the command handlers with their access check. Every
 * command handler first asks `check_auth`; an empty allow-list admits every
 * user. The two button callbacks are not checked. The filesystem, the home
 * directory, the live processes and the file-inspection outcomes of `/ls`
 * are inputs.
 */
module Bot {
  import opened Maybe
  import opened Paths
  import opened FileTree
  import Text
  import Sorting
  import Messages
  import Traversal
  import Session
  import Listing
  import TreeView
  import Search
  import Viewing
  import Confirm

  datatype Gated<T> = Denied | Handled(reply: T)

  class FileServerBot {
    const allowedUsers: seq<int>
    const home: Path
    var currentDir: Path
    var bookmarks: map<string, Path>

    ghost predicate Valid()
      reads this
    {
      IsNormal(currentDir) && IsNormal(home) && Session.AllNormal(bookmarks)
    }

    /** `allowed_users or []`; the bookmarks are those loaded from disk, or none when there is no saved file. */
    constructor (allowed: Option<seq<int>>, cwd: Path, homeDir: Path, saved: Option<map<string, Path>>)
      requires IsNormal(cwd) && IsNormal(homeDir)
      requires saved.Some? ==> Session.AllNormal(saved.value)
      ensures Valid()
      ensures allowedUsers == (if allowed.Some? then allowed.value else [])
      ensures home == homeDir && currentDir == cwd
      ensures bookmarks == (if saved.Some? then saved.value else map[])
    {
      allowedUsers := if allowed.Some? then allowed.value else [];
      home := homeDir;
      currentDir := cwd;
      bookmarks := if saved.Some? then saved.value else map[];
    }

    /** `check_auth`. */
    predicate Authorized(user: int)
      reads this
    {
      allowedUsers == [] || user in allowedUsers
    }

    /** An empty allow-list admits every user; otherwise exactly the listed users are admitted. */
    lemma AuthorizedExactly(user: int)
      ensures allowedUsers == [] ==> Authorized(user)
      ensures allowedUsers != [] ==> (Authorized(user) <==> user in allowedUsers)
    {
    }

    method ChangeDirectory(user: int, fs: Node, args: seq<string>) returns (r: Gated<Session.CdReply>)
      requires Valid()
      modifies this
      ensures Valid()
      ensures r == (if Authorized(user) then Handled(Session.Cd(fs, old(currentDir), home, args)) else Denied)
      ensures currentDir == (if r.Handled? then Session.AfterCd(r.reply, old(currentDir)) else old(currentDir))
      ensures bookmarks == old(bookmarks)
    {
      if !Authorized(user) {
        return Denied;
      }
      var reply := Session.Cd(fs, currentDir, home, args);
      currentDir := Session.AfterCd(reply, currentDir);
      return Handled(reply);
    }

    method UpDirectory(user: int, fs: Node) returns (r: Gated<Session.UpReply>)
      requires Valid()
      modifies this
      ensures Valid()
      ensures r == (if Authorized(user) then Handled(Session.Up(fs, old(currentDir))) else Denied)
      ensures currentDir == (if r.Handled? then Session.AfterUp(r.reply, old(currentDir)) else old(currentDir))
      ensures bookmarks == old(bookmarks)
    {
      if !Authorized(user) {
        return Denied;
      }
      var reply := Session.Up(fs, currentDir);
      currentDir := Session.AfterUp(reply, currentDir);
      return Handled(reply);
    }

    method BookmarkHandler(user: int, fs: Node, args: seq<string>) returns (r: Gated<Session.BmReply>)
      requires Valid()
      modifies this
      ensures Valid()
      ensures !Authorized(user) ==> r == Denied && currentDir == old(currentDir) && bookmarks == old(bookmarks)
      ensures Authorized(user) ==>
        var t := Session.Bookmark(fs, old(currentDir), old(bookmarks), args);
        r == Handled(t.reply) && currentDir == t.cur && bookmarks == t.marks
    {
      if !Authorized(user) {
        return Denied;
      }
      var t := Session.Bookmark(fs, currentDir, bookmarks, args);
      Session.BookmarkKeepsNormal(fs, currentDir, bookmarks, args);
      currentDir := t.cur;
      bookmarks := t.marks;
      return Handled(t.reply);
    }

    method PrintWorkingDirectory(user: int) returns (r: Gated<Session.PwdReply>)
      ensures r == (if Authorized(user) then Handled(Session.Pwd(currentDir)) else Denied)
    {
      if !Authorized(user) {
        return Denied;
      }
      return Handled(Session.Pwd(currentDir));
    }

    method ListDirectory(user: int, fs: Node, probes: map<string, Listing.Probe>) returns (r: Gated<Listing.ListReply>)
      ensures r.Handled? <==> Authorized(user)
      ensures r.Handled? && !IsListableAt(fs, currentDir) ==> r.reply == Listing.ListFailed
      ensures r.Handled? && IsListableAt(fs, currentDir) ==>
        var es := Lookup(fs, currentDir).value.entries;
        r.reply == Listing.Listed(Listing.SortItems(Listing.Inspected(es, probes)), Listing.CountedTotal(es, probes))
    {
      if !Authorized(user) {
        return Denied;
      }
      var reply := Listing.ListDirectory(fs, currentDir, probes);
      return Handled(reply);
    }

    method Tree(user: int, fs: Node, args: seq<string>) returns (r: Gated<TreeView.TreeReply>)
      ensures r.Handled? <==> Authorized(user)
      ensures r.Handled? && TreeView.DepthArgument(args).None? ==> r.reply == TreeView.TreeBadDepth
      ensures r.Handled? && TreeView.DepthArgument(args).Some? ==>
        r.reply == TreeView.TreeSent(Messages.Replies(
          Text.Join(TreeView.TreeLines(fs, currentDir, TreeView.DepthArgument(args).value), "\n")))
    {
      if !Authorized(user) {
        return Denied;
      }
      var reply := TreeView.Tree(fs, currentDir, args);
      return Handled(reply);
    }

    method SearchFiles(user: int, fs: Node, args: seq<string>) returns (r: Gated<Search.FindReply>)
      ensures r.Handled? <==> Authorized(user)
      ensures r.Handled? && args == [] ==> r.reply == Search.FindUsage
      ensures r.Handled? && args != [] ==>
        var term := Text.Lower(Text.Join(args, " "));
        var hits := Search.FindHits(Traversal.WalkAt(fs, currentDir), term);
        r.reply == (if hits == [] then Search.FindNothing(term) else Search.FindFound(term, Sorting.Image(Search.HitLine, hits)))
    {
      if !Authorized(user) {
        return Denied;
      }
      var reply := Search.Find(fs, currentDir, args);
      return Handled(reply);
    }

    method SearchContent(user: int, fs: Node, args: seq<string>) returns (r: Gated<Search.SearchReply>)
      ensures r.Handled? <==> Authorized(user)
      ensures r.Handled? && args == [] ==> r.reply == Search.SearchUsage
      ensures r.Handled? && args != [] ==>
        var text := Text.Lower(Text.Join(args, " "));
        r.reply == Search.SearchSent(Messages.Replies(
          Search.SearchMessage(text, Search.SearchHits(Traversal.WalkAt(fs, currentDir), text, Search.TextExtensions))))
    {
      if !Authorized(user) {
        return Denied;
      }
      var reply := Search.SearchText(fs, currentDir, args);
      return Handled(reply);
    }

    method GetZip(user: int, fs: Node, args: seq<string>) returns (r: Gated<Search.ZipReply>)
      ensures r.Handled? <==> Authorized(user)
      ensures r.Handled? && args == [] ==> r.reply == Search.ZipUsage
      ensures r.Handled? && args != [] && !ExistsJoined(fs, currentDir, args[0]) ==> r.reply == Search.ZipMissing
      ensures r.Handled? && args != [] && ExistsJoined(fs, currentDir, args[0]) ==>
        var walk := Traversal.WalkAt(fs, Joined(currentDir, args[0]));
        r.reply == (if Search.WalkArchivable(walk)
          then Search.ZipSent(args[0] + ".zip", Joined(currentDir, args[0] + ".zip"),
                              Sorting.Image(Search.RelText, Search.ZipEntries(walk)))
          else Search.ZipFailed)
    {
      if !Authorized(user) {
        return Denied;
      }
      var reply := Search.GetZip(fs, currentDir, args);
      return Handled(reply);
    }

    method CatFile(user: int, fs: Node, args: seq<string>) returns (r: Gated<Viewing.ViewReply>)
      ensures r == (if Authorized(user) then Handled(Viewing.Cat(fs, currentDir, args)) else Denied)
    {
      if !Authorized(user) {
        return Denied;
      }
      return Handled(Viewing.Cat(fs, currentDir, args));
    }

    method TailFile(user: int, fs: Node, args: seq<string>) returns (r: Gated<Viewing.ViewReply>)
      ensures r == (if Authorized(user) then Handled(Viewing.Tail(fs, currentDir, args)) else Denied)
    {
      if !Authorized(user) {
        return Denied;
      }
      return Handled(Viewing.Tail(fs, currentDir, args));
    }

    method RemoveItem(user: int, fs: Node, args: seq<string>) returns (r: Gated<Confirm.RmPrompt>)
      ensures r == (if Authorized(user) then Handled(Confirm.RemoveRequest(fs, currentDir, args)) else Denied)
    {
      if !Authorized(user) {
        return Denied;
      }
      return Handled(Confirm.RemoveRequest(fs, currentDir, args));
    }

    /** The `^rm_` button: resolved against the directory current now, whoever pressed it. */
    method RemoveItemCallback(fs: Node, data: string) returns (r: Confirm.RmOutcome)
      ensures r == Confirm.RemoveCallback(fs, currentDir, data)
    {
      return Confirm.RemoveCallback(fs, currentDir, data);
    }

    method KillProcess(user: int, alive: map<int, string>, args: seq<string>) returns (r: Gated<Confirm.KillPrompt>)
      ensures r == (if Authorized(user) then Handled(Confirm.KillRequest(alive, args)) else Denied)
    {
      if !Authorized(user) {
        return Denied;
      }
      return Handled(Confirm.KillRequest(alive, args));
    }

    /** The `^kill_` button, whoever pressed it. */
    method KillProcessCallback(alive: map<int, string>, data: string) returns (r: Confirm.KillOutcome)
      ensures r == Confirm.KillCallback(alive, data)
    {
      return Confirm.KillCallback(alive, data);
    }
  }
}
