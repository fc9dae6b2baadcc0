/**
 * The confirmation buttons of `/rm` and `/kill`. No pending action is kept
 * on the server: the button's `callback_data` carries it, and the callback
 * handler decodes it again with `split('_')`. The removal target is joined
 * onto the current directory when the button is pressed, not when it was
 * offered. Processes are an input: the map from live PIDs to their names.
 */
module Confirm {
  import opened Maybe
  import opened Text
  import opened Numbers
  import opened Paths
  import opened FileTree

  const RmYes := "rm_yes_"
  const RmNo := "rm_no"
  const KillYes := "kill_yes_"
  const KillNo := "kill_no"

  /** `xs[k:]`, empty when `xs` is shorter. */
  function Drop<T>(xs: seq<T>, k: nat): seq<T>
  {
    if |xs| <= k then [] else xs[k..]
  }

  // -------------------------------------------------------------------- /rm

  datatype RmPrompt =
    | RmUsage
    | RmMissing
    | RmAsk(path: string, isDir: bool, yes: string, no: string)

  /** `/rm <path...>`: the question and its two buttons, when the path exists. */
  function RemoveRequest(fs: Node, cur: Path, args: seq<string>): (r: RmPrompt)
    ensures r == RmUsage <==> args == []
    ensures r == RmMissing <==> args != [] && !ExistsJoined(fs, cur, Join(args, " "))
    ensures r.RmAsk? ==>
      r.path == Join(args, " ") && ExistsJoined(fs, cur, r.path) && r.isDir == IsDirAt(fs, Joined(cur, r.path)) &&
      r.yes == RmYes + r.path && r.no == RmNo
  {
    if args == [] then RmUsage
    else
      var path := Join(args, " ");
      if !ExistsJoined(fs, cur, path) then RmMissing
      else RmAsk(path, IsDirAt(fs, Joined(cur, path)), RmYes + path, RmNo)
  }

  /** `" ".join(query.data.split('_')[2:])`. */
  function RmTarget(data: string): string
  {
    Join(Drop(Split(data, '_'), 2), " ")
  }

  datatype RmOutcome =
    | RmCancelled
    | RemoveTree(path: string, full: Path)
    | RemoveFile(path: string, full: Path)
    | RmFailed(path: string)

  /**
   * The callback for any data starting with `rm_`: `rmtree` for a directory,
   * `os.remove` for anything else, which fails unless the joined text exists.
   */
  function RemoveCallback(fs: Node, cur: Path, data: string): (r: RmOutcome)
    ensures r == RmCancelled <==> data == RmNo
    ensures data != RmNo && IsDirAt(fs, Joined(cur, RmTarget(data))) ==>
      r == RemoveTree(RmTarget(data), Joined(cur, RmTarget(data)))
    ensures data != RmNo && !IsDirAt(fs, Joined(cur, RmTarget(data))) && ExistsJoined(fs, cur, RmTarget(data)) ==>
      r == RemoveFile(RmTarget(data), Joined(cur, RmTarget(data)))
    ensures data != RmNo && !ExistsJoined(fs, cur, RmTarget(data)) ==> r == RmFailed(RmTarget(data))
    ensures r.RemoveTree? ==> IsDirAt(fs, r.full)
    ensures r.RemoveFile? ==> Exists(fs, r.full) && !IsDirAt(fs, r.full) && !DirOnly(r.path)
  {
    if data == RmNo then RmCancelled
    else
      var path := RmTarget(data);
      var full := Joined(cur, path);
      if IsDirAt(fs, full) then RemoveTree(path, full)
      else if ExistsJoined(fs, cur, path) then RemoveFile(path, full)
      else RmFailed(path)
  }

  lemma RmDataSplits(path: string)
    ensures Split(RmYes + path, '_') == ["rm", "yes"] + Split(path, '_')
  {
    assert RmYes + path == "rm" + ['_'] + ("yes" + ['_'] + path);
    SplitAround("rm", "yes" + ['_'] + path, '_');
    SplitAround("yes", path, '_');
  }

  /** The decoded path is the offered one with every `_` turned into a space. */
  lemma RmTargetOfButton(path: string)
    ensures RmTarget(RmYes + path) == ReplaceChar(path, '_', ' ')
  {
    RmDataSplits(path);
    assert Drop(Split(RmYes + path, '_'), 2) == Split(path, '_');
    JoinSplit(path, '_', " ");
  }

  /** The button removes what was offered exactly when the path has no underscore. */
  lemma RmRoundTrip(path: string)
    ensures RmTarget(RmYes + path) == path <==> '_' !in path
  {
    RmTargetOfButton(path);
    if '_' in path {
      var i :| 0 <= i < |path| && path[i] == '_';
      assert ReplaceChar(path, '_', ' ')[i] == ' ';
    } else {
      assert ReplaceChar(path, '_', ' ') == path;
    }
  }

  /** A plain name offered from one directory is removed from whatever directory is current when the button is pressed. */
  lemma RmResolvedAtCallback(fs: Node, cur: Path, later: Path, name: string)
    requires IsNormal(cur) && IsNormal(later) && IsName(name) && '_' !in name
    ensures RemoveRequest(fs, cur, [name]).RmAsk? ==> RemoveRequest(fs, cur, [name]).yes == RmYes + name
    ensures RmTarget(RmYes + name) == name
    ensures Joined(later, RmTarget(RmYes + name)) == later + [name]
    ensures later != cur ==> Joined(later, RmTarget(RmYes + name)) != Joined(cur, name)
  {
    RmRoundTrip(name);
    JoinedName(later, name);
    JoinedName(cur, name);
    if later != cur {
      assert (later + [name])[..|later|] == later;
      assert (cur + [name])[..|cur|] == cur;
    }
  }

  /** Data `rm_yes` with nothing after it decodes to the empty path, which names the current directory itself. */
  lemma RmBareTargetsCurrent(cur: Path)
    requires IsNormal(cur)
    ensures RmTarget("rm_yes") == ""
    ensures Joined(cur, RmTarget("rm_yes")) == cur
  {
    assert "rm_yes" == "rm" + ['_'] + "yes";
    SplitAround("rm", "yes", '_');
    SplitWithoutSep("yes", '_');
    JoinedRelative(cur, "");
  }

  // ------------------------------------------------------------------ /kill

  datatype KillPrompt =
    | KillUsage
    | KillBadPid
    | KillNoProcess
    | KillAsk(pid: int, name: string, yes: string, no: string)

  /** `/kill <pid>`: `int()` raising and `psutil.Process` refusing a negative PID both give the bad-PID reply. */
  function KillRequest(alive: map<int, string>, args: seq<string>): (r: KillPrompt)
    ensures r == KillUsage <==> args == []
    ensures r == KillBadPid <==> args != [] && (ParseInt(args[0]).None? || ParseInt(args[0]).value < 0)
    ensures r == KillNoProcess <==>
      args != [] && ParseInt(args[0]).Some? && ParseInt(args[0]).value >= 0 && ParseInt(args[0]).value !in alive
    ensures r.KillAsk? ==> r.pid >= 0 && r.pid in alive && r.name == alive[r.pid] && r.no == KillNo
    ensures r.KillAsk? ==> args != [] && ParseInt(args[0]) == Some(r.pid) && r.yes == KillYes + IntToString(r.pid)
  {
    if args == [] then KillUsage
    else match ParseInt(args[0])
      case None => KillBadPid
      case Some(pid) =>
        if pid < 0 then KillBadPid
        else if pid !in alive then KillNoProcess
        else KillAsk(pid, alive[pid], KillYes + IntToString(pid), KillNo)
  }

  datatype KillOutcome = KillCancelled | KillFailed | Terminate(pid: int, name: string)

  /** `int(query.data.split('_')[2])`; `None` when the part is missing or not a number. */
  function KillTarget(data: string): Option<int>
  {
    var parts := Split(data, '_');
    if |parts| < 3 then None else ParseInt(parts[2])
  }

  /** The callback for any data starting with `kill_`. */
  function KillCallback(alive: map<int, string>, data: string): (r: KillOutcome)
    ensures r.Terminate? ==> KillTarget(data) == Some(r.pid) && r.pid >= 0 && r.pid in alive && r.name == alive[r.pid]
    ensures r == KillCancelled <==> data == KillNo
    ensures data != KillNo && KillTarget(data).Some? && KillTarget(data).value >= 0 && KillTarget(data).value in alive ==>
      r == Terminate(KillTarget(data).value, alive[KillTarget(data).value])
  {
    if data == KillNo then KillCancelled
    else match KillTarget(data)
      case None => KillFailed
      case Some(pid) =>
        if pid < 0 || pid !in alive then KillFailed else Terminate(pid, alive[pid])
  }

  /** The PID of the button decodes to the same integer, whatever its sign. */
  lemma KillRoundTrip(pid: int)
    ensures KillTarget(KillYes + IntToString(pid)) == Some(pid)
  {
    var s := IntToString(pid);
    IntToStringHasNoUnderscore(pid);
    assert KillYes + s == "kill" + ['_'] + ("yes" + ['_'] + s);
    SplitAround("kill", "yes" + ['_'] + s, '_');
    SplitAround("yes", s, '_');
    SplitWithoutSep(s, '_');
    IntRoundTrip(pid);
  }

  /** Pressing the button of an offered kill terminates that very process, while it is still alive. */
  lemma KillConfirmed(alive: map<int, string>, args: seq<string>, later: map<int, string>)
    requires KillRequest(alive, args).KillAsk?
    ensures var p := KillRequest(alive, args);
      KillCallback(later, p.yes) == (if p.pid in later then Terminate(p.pid, later[p.pid]) else KillFailed)
    ensures KillCallback(later, KillRequest(alive, args).no) == KillCancelled
  {
    KillRoundTrip(KillRequest(alive, args).pid);
  }

  /** `/rm name/` on a regular file `name` reports that it does not exist, and a button carrying `name/` fails. */
  lemma RmSlashedFile(fs: Node, cur: Path, name: string)
    requires IsNormal(cur) && IsName(name) && '_' !in name && IsFileAt(fs, cur + [name])
    ensures RemoveRequest(fs, cur, [name + "/"]) == RmMissing
    ensures RemoveCallback(fs, cur, RmYes + (name + "/")) == RmFailed(name + "/")
  {
    SlashedExists(fs, cur, name);
    assert Join([name + "/"], " ") == name + "/";
    RmRoundTrip(name + "/");
  }
}
