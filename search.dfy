/**
 * The three handlers built on `os.walk`: `/find` (names containing a term),
 * `/search` (lines containing a text, in files with a known text extension)
 * and `/getzip` (the archive entry names of a folder). Paths in results are
 * relative to the walked directory, as `os.path.relpath` gives them.
 */
module Search {
  import opened Maybe
  import opened Text
  import opened Numbers
  import opened Paths
  import opened FileTree
  import opened Traversal
  import Messages
  import Sorting

  /** The relative path as `os.path.relpath` prints it. */
  function RelText(p: Path): string
  {
    Join(p, "/")
  }

  /** `p` is `q + [name]`: its last component and the directory holding it. */
  lemma LastComponent(q: Path, name: string)
    ensures (q + [name])[..|q|] == q && (q + [name])[|q|] == name
  {
  }

  lemma PathOfParent(p: Path)
    requires p != []
    ensures p[..|p| - 1] + [p[|p| - 1]] == p
  {
  }

  // ------------------------------------------------------------------ /find

  datatype Hit = Hit(isDir: bool, path: Path)

  /** `term in item.lower()`, the term being lower-cased already. */
  predicate NameMatches(name: string, term: string)
  {
    Contains(Lower(name), term)
  }

  /** The hits of the inner loop over `dirs + files`. */
  function FindIn(rel: Path, es: seq<Entry>, term: string): seq<Hit>
  {
    if es == [] then []
    else
      var e := es[|es| - 1];
      FindIn(rel, es[..|es| - 1], term) + (if NameMatches(e.name, term) then [Hit(e.node.Dir?, rel + [e.name])] else [])
  }

  /** The hits of the whole walk. */
  function FindHits(walk: seq<Visit>, term: string): seq<Hit>
  {
    if walk == [] then []
    else
      var v := walk[|walk| - 1];
      FindHits(walk[..|walk| - 1], term) + FindIn(v.rel, v.dirs + v.files, term)
  }

  lemma {:induction false} FindInSource(rel: Path, es: seq<Entry>, term: string, h: Hit) returns (e: Entry)
    requires h in FindIn(rel, es, term)
    ensures e in es && NameMatches(e.name, term) && h == Hit(e.node.Dir?, rel + [e.name])
  {
    var last := es[|es| - 1];
    if h in FindIn(rel, es[..|es| - 1], term) {
      e := FindInSource(rel, es[..|es| - 1], term, h);
      assert e in es[..|es| - 1];
    } else {
      e := last;
    }
  }

  lemma {:induction false} FindInHas(rel: Path, es: seq<Entry>, term: string, k: nat)
    requires k < |es| && NameMatches(es[k].name, term)
    ensures Hit(es[k].node.Dir?, rel + [es[k].name]) in FindIn(rel, es, term)
  {
    if k < |es| - 1 {
      var init := es[..|es| - 1];
      assert init[k] == es[k];
      FindInHas(rel, init, term, k);
    }
  }

  lemma {:induction false} FindHitsSource(walk: seq<Visit>, term: string, h: Hit) returns (v: Visit)
    requires h in FindHits(walk, term)
    ensures v in walk && h in FindIn(v.rel, v.dirs + v.files, term)
  {
    if h in FindHits(walk[..|walk| - 1], term) {
      v := FindHitsSource(walk[..|walk| - 1], term, h);
      assert v in walk[..|walk| - 1];
    } else {
      v := walk[|walk| - 1];
    }
  }

  lemma {:induction false} FindHitsHas(walk: seq<Visit>, term: string, k: nat, h: Hit)
    requires k < |walk| && h in FindIn(walk[k].rel, walk[k].dirs + walk[k].files, term)
    ensures h in FindHits(walk, term)
  {
    if k < |walk| - 1 {
      var init := walk[..|walk| - 1];
      assert init[k] == walk[k];
      FindHitsHas(init, term, k, h);
    }
  }

  /** An entry reached by the walk: its directory was listed and it is that directory's entry. */
  predicate Reached(n: Node, p: Path)
  {
    p != [] && WalkedDir(n, p[..|p| - 1]) && Lookup(n, p).Some?
  }

  /**
   * `/find` reports exactly the entries below the directory whose lower-cased
   * name contains the term, each once per occurrence in the walk, marked as a
   * directory exactly when it is one.
   */
  lemma FindExact(n: Node, term: string, h: Hit)
    requires WellFormed(n)
    ensures h in FindHits(Walk(n, []), term) <==>
      Reached(n, h.path) && NameMatches(h.path[|h.path| - 1], term) && h.isDir == Lookup(n, h.path).value.Dir?
  {
    if h in FindHits(Walk(n, []), term) {
      var v := FindHitsSource(Walk(n, []), term, h);
      WalkExact(n, v);
      var e := FindInSource(v.rel, v.dirs + v.files, term, h);
      assert e in EntriesAt(n, v.rel);
      ListedEntry(n, v.rel, e);
      LastComponent(v.rel, e.name);
    }
    if Reached(n, h.path) && NameMatches(h.path[|h.path| - 1], term) && h.isDir == Lookup(n, h.path).value.Dir? {
      var q := h.path[..|h.path| - 1];
      var e := Entry(h.path[|h.path| - 1], Lookup(n, h.path).value);
      PathOfParent(h.path);
      ListedEntry(n, q, e);
      var v := Visit(q, DirsOf(EntriesAt(n, q)), FilesOf(EntriesAt(n, q)));
      WalkExact(n, v);
      Partitioned(EntriesAt(n, q), e);
      assert e in v.dirs + v.files;
      var j := IndexOf(v.dirs + v.files, e);
      FindInHas(v.rel, v.dirs + v.files, term, j);
      var k := IndexOf(Walk(n, []), v);
      FindHitsHas(Walk(n, []), term, k, h);
    }
  }

  lemma TakeOneMore<T>(s: seq<T>, k: nat)
    requires k < |s|
    ensures s[..k + 1][..k] == s[..k] && s[..k + 1][k] == s[k]
  {
  }

  /** The nested loop of `/find` over the walk and over `dirs + files`. */
  method FindByName(walk: seq<Visit>, term: string) returns (results: seq<Hit>)
    ensures results == FindHits(walk, term)
  {
    results := [];
    for k := 0 to |walk|
      invariant results == FindHits(walk[..k], term)
    {
      var v := walk[k];
      var found := FindInEntries(v.rel, v.dirs + v.files, term);
      results := results + found;
      TakeOneMore(walk, k);
    }
    assert walk[..|walk|] == walk;
  }

  /** The inner loop over `dirs + files` of one triple. */
  method FindInEntries(rel: Path, items: seq<Entry>, term: string) returns (found: seq<Hit>)
    ensures found == FindIn(rel, items, term)
  {
    found := [];
    for j := 0 to |items|
      invariant found == FindIn(rel, items[..j], term)
    {
      var e := items[j];
      if NameMatches(e.name, term) {
        found := found + [Hit(e.node.Dir?, rel + [e.name])];
      }
      TakeOneMore(items, j);
    }
    assert items[..|items|] == items;
  }

  /** The line `/find` prints for a hit. */
  function HitLine(h: Hit): string
  {
    (if h.isDir then "\U{1F4C1}" else "\U{1F4C4}") + " " + RelText(h.path)
  }

  datatype FindReply = FindUsage | FindNothing(term: string) | FindFound(term: string, lines: seq<string>)

  /** `/find <term...>` in directory `cur`. */
  method Find(fs: Node, cur: Path, args: seq<string>) returns (r: FindReply)
    ensures args == [] <==> r == FindUsage
    ensures args != [] ==>
      var term := Lower(Join(args, " "));
      var hits := FindHits(WalkAt(fs, cur), term);
      r == (if hits == [] then FindNothing(term) else FindFound(term, Sorting.Image(HitLine, hits)))
  {
    if args == [] {
      return FindUsage;
    }
    var term := Lower(Join(args, " "));
    var hits := FindByName(WalkAt(fs, cur), term);
    if hits == [] {
      return FindNothing(term);
    }
    return FindFound(term, Sorting.Image(HitLine, hits));
  }

  // ---------------------------------------------------------------- /search

  /** The extensions `/search` opens. */
  const TextExtensions: set<string> :=
    {".txt", ".log", ".py", ".java", ".cpp", ".h", ".c", ".js", ".html", ".css", ".xml", ".json", ".md", ".ini", ".conf"}

  /** The index of the last `.` in `s`. */
  function LastDot(s: string): (r: Option<nat>)
    ensures r.Some? ==> r.value < |s| && s[r.value] == '.' && '.' !in s[r.value + 1..]
    ensures r.None? ==> '.' !in s
  {
    if s == [] then None
    else if s[|s| - 1] == '.' then Some(|s| - 1)
    else
      var r := LastDot(s[..|s| - 1]);
      assert s == s[..|s| - 1] + [s[|s| - 1]];
      if r.Some? then
        assert s[r.value + 1..] == s[..|s| - 1][r.value + 1..] + [s[|s| - 1]];
        r
      else r
  }

  /** `os.path.splitext(name)[1]`: from the last dot, unless only dots precede it. */
  function SplitExt(name: string): (ext: string)
    ensures |ext| <= |name| && ext == name[|name| - |ext|..]
    ensures ext == [] || (ext[0] == '.' && '.' !in ext[1..])
    ensures ext != [] <==> exists i, j :: 0 <= i < j < |name| && name[i] != '.' && name[j] == '.'
  {
    match LastDot(name)
    case None => ""
    case Some(d) => if exists k :: 0 <= k < d && name[k] != '.' then name[d..] else ""
  }

  /** `os.path.splitext(file)[1].lower() in exts`. */
  predicate HasExtensionIn(name: string, exts: set<string>)
  {
    Lower(SplitExt(name)) in exts
  }

  /** A file `/search` reads to the end: opening and decoding it raise nothing. */
  predicate Readable(n: Node)
  {
    n.File? && n.readable && n.text
  }

  datatype Match = Match(path: Path, number: nat, line: string)

  /** `for i, line in enumerate(f, 1)`: the lines containing the text, numbered from 1. */
  function LineMatches(path: Path, lines: seq<string>, text: string): seq<Match>
  {
    if lines == [] then []
    else
      var last := lines[|lines| - 1];
      LineMatches(path, lines[..|lines| - 1], text) +
      (if Contains(Lower(last), text) then [Match(path, |lines|, last)] else [])
  }

  /** The matches for one entry of `files`. */
  function FileMatches(rel: Path, e: Entry, text: string, exts: set<string>): seq<Match>
  {
    if HasExtensionIn(e.name, exts) && Readable(e.node) then LineMatches(rel + [e.name], e.node.lines, text) else []
  }

  function FilesMatches(rel: Path, es: seq<Entry>, text: string, exts: set<string>): seq<Match>
  {
    if es == [] then [] else FilesMatches(rel, es[..|es| - 1], text, exts) + FileMatches(rel, es[|es| - 1], text, exts)
  }

  function SearchHits(walk: seq<Visit>, text: string, exts: set<string>): seq<Match>
  {
    if walk == [] then []
    else
      var v := walk[|walk| - 1];
      SearchHits(walk[..|walk| - 1], text, exts) + FilesMatches(v.rel, v.files, text, exts)
  }

  /** Every match is a line of the file that contains the text, with its 1-based number, and every such line is matched. */
  lemma {:induction false} LineMatchesExact(path: Path, lines: seq<string>, text: string, m: Match)
    ensures m in LineMatches(path, lines, text) <==>
      m.path == path && 1 <= m.number <= |lines| && m.line == lines[m.number - 1] && Contains(Lower(m.line), text)
  {
    if lines != [] {
      var init := lines[..|lines| - 1];
      LineMatchesExact(path, init, text, m);
      if 1 <= m.number < |lines| {
        assert init[m.number - 1] == lines[m.number - 1];
      }
    }
  }

  /** Line numbers come out strictly increasing. */
  lemma {:induction false} LineMatchesAscend(path: Path, lines: seq<string>, text: string)
    ensures forall i, j :: 0 <= i < j < |LineMatches(path, lines, text)| ==>
      LineMatches(path, lines, text)[i].number < LineMatches(path, lines, text)[j].number
  {
    if lines != [] {
      var init := lines[..|lines| - 1];
      var before := LineMatches(path, init, text);
      LineMatchesAscend(path, init, text);
      forall i | 0 <= i < |before| ensures before[i].number < |lines| {
        assert before[i] in before;
        LineMatchesExact(path, init, text, before[i]);
      }
    }
  }

  lemma {:induction false} FilesMatchesSource(rel: Path, es: seq<Entry>, text: string, exts: set<string>, m: Match) returns (e: Entry)
    requires m in FilesMatches(rel, es, text, exts)
    ensures e in es && m in FileMatches(rel, e, text, exts)
  {
    if m in FilesMatches(rel, es[..|es| - 1], text, exts) {
      e := FilesMatchesSource(rel, es[..|es| - 1], text, exts, m);
      assert e in es[..|es| - 1];
    } else {
      e := es[|es| - 1];
    }
  }

  lemma {:induction false} FilesMatchesHas(rel: Path, es: seq<Entry>, text: string, exts: set<string>, k: nat, m: Match)
    requires k < |es| && m in FileMatches(rel, es[k], text, exts)
    ensures m in FilesMatches(rel, es, text, exts)
  {
    if k < |es| - 1 {
      var init := es[..|es| - 1];
      assert init[k] == es[k];
      FilesMatchesHas(rel, init, text, exts, k, m);
    }
  }

  lemma {:induction false} SearchHitsSource(walk: seq<Visit>, text: string, exts: set<string>, m: Match) returns (v: Visit)
    requires m in SearchHits(walk, text, exts)
    ensures v in walk && m in FilesMatches(v.rel, v.files, text, exts)
  {
    if m in SearchHits(walk[..|walk| - 1], text, exts) {
      v := SearchHitsSource(walk[..|walk| - 1], text, exts, m);
      assert v in walk[..|walk| - 1];
    } else {
      v := walk[|walk| - 1];
    }
  }

  lemma {:induction false} SearchHitsHas(walk: seq<Visit>, text: string, exts: set<string>, k: nat, m: Match)
    requires k < |walk| && m in FilesMatches(walk[k].rel, walk[k].files, text, exts)
    ensures m in SearchHits(walk, text, exts)
  {
    if k < |walk| - 1 {
      var init := walk[..|walk| - 1];
      assert init[k] == walk[k];
      SearchHitsHas(init, text, exts, k, m);
    }
  }

  /** What `/search` must find at path `p`, line `i`. */
  predicate Expected(n: Node, m: Match, text: string, exts: set<string>)
  {
    Reached(n, m.path) &&
    HasExtensionIn(m.path[|m.path| - 1], exts) &&
    Readable(Lookup(n, m.path).value) &&
    var lines := Lookup(n, m.path).value.lines;
    1 <= m.number <= |lines| && m.line == lines[m.number - 1] && Contains(Lower(m.line), text)
  }

  /**
   * `/search` reports exactly the lines containing the text of the readable,
   * decodable files with a text extension below the directory; files that are
   * unreadable or not UTF-8 contribute nothing.
   */
  lemma SearchExact(n: Node, text: string, exts: set<string>, m: Match)
    requires WellFormed(n)
    ensures m in SearchHits(Walk(n, []), text, exts) <==> Expected(n, m, text, exts)
  {
    if m in SearchHits(Walk(n, []), text, exts) {
      SearchSound(n, text, exts, m);
    }
    if Expected(n, m, text, exts) {
      SearchComplete(n, text, exts, m);
    }
  }

  lemma SearchSound(n: Node, text: string, exts: set<string>, m: Match)
    requires WellFormed(n)
    requires m in SearchHits(Walk(n, []), text, exts)
    ensures Expected(n, m, text, exts)
  {
    var v := SearchHitsSource(Walk(n, []), text, exts, m);
    WalkExact(n, v);
    var e := FilesMatchesSource(v.rel, v.files, text, exts, m);
    assert e in EntriesAt(n, v.rel);
    ListedEntry(n, v.rel, e);
    LineMatchesExact(v.rel + [e.name], e.node.lines, text, m);
    LastComponent(v.rel, e.name);
  }

  lemma SearchComplete(n: Node, text: string, exts: set<string>, m: Match)
    requires WellFormed(n)
    requires Expected(n, m, text, exts)
    ensures m in SearchHits(Walk(n, []), text, exts)
  {
    var p := m.path;
    var q := p[..|p| - 1];
    var e := Entry(p[|p| - 1], Lookup(n, p).value);
    PathOfParent(p);
    ListedEntry(n, q, e);
    var v := Visit(q, DirsOf(EntriesAt(n, q)), FilesOf(EntriesAt(n, q)));
    WalkExact(n, v);
    Partitioned(EntriesAt(n, q), e);
    LineMatchesExact(q + [e.name], e.node.lines, text, m);
    var j := IndexOf(v.files, e);
    FilesMatchesHas(v.rel, v.files, text, exts, j, m);
    var k := IndexOf(Walk(n, []), v);
    SearchHitsHas(Walk(n, []), text, exts, k, m);
  }

  /** The loop over the lines of one opened file. */
  method ScanLines(path: Path, lines: seq<string>, text: string) returns (found: seq<Match>)
    ensures found == LineMatches(path, lines, text)
  {
    found := [];
    for i := 0 to |lines|
      invariant found == LineMatches(path, lines[..i], text)
    {
      var line := lines[i];
      if Contains(Lower(line), text) {
        found := found + [Match(path, i + 1, line)];
      }
      TakeOneMore(lines, i);
    }
    assert lines[..|lines|] == lines;
  }

  lemma FilesMatchesStep(rel: Path, files: seq<Entry>, j: nat, text: string, exts: set<string>)
    requires j < |files|
    ensures FilesMatches(rel, files[..j + 1], text, exts) == FilesMatches(rel, files[..j], text, exts) + FileMatches(rel, files[j], text, exts)
  {
    TakeOneMore(files, j);
  }

  /** The loop of `/search` over the `files` of one triple. */
  method ScanFiles(rel: Path, files: seq<Entry>, text: string, exts: set<string>) returns (found: seq<Match>)
    ensures found == FilesMatches(rel, files, text, exts)
  {
    found := [];
    for j := 0 to |files|
      invariant found == FilesMatches(rel, files[..j], text, exts)
    {
      var e := files[j];
      FilesMatchesStep(rel, files, j, text, exts);
      if HasExtensionIn(e.name, exts) && Readable(e.node) {
        var lines := ScanLines(rel + [e.name], e.node.lines, text);
        found := found + lines;
      }
    }
    assert files[..|files|] == files;
  }

  /** The loop of `/search` over the walk. */
  method SearchContent(walk: seq<Visit>, text: string, exts: set<string>) returns (results: seq<Match>)
    ensures results == SearchHits(walk, text, exts)
  {
    results := [];
    for k := 0 to |walk|
      invariant results == SearchHits(walk[..k], text, exts)
    {
      var v := walk[k];
      var found := ScanFiles(v.rel, v.files, text, exts);
      results := results + found;
      TakeOneMore(walk, k);
    }
    assert walk[..|walk|] == walk;
  }

  /** The number of results shown. */
  const DisplayCap := 20

  /** `results[:20]`. */
  function Shown(hits: seq<Match>): (r: seq<Match>)
    ensures |r| == Messages.Min(DisplayCap, |hits|) && r <= hits
  {
    if |hits| <= DisplayCap then hits else hits[..DisplayCap]
  }

  function MatchLine(m: Match): string
  {
    "\U{1F4C4} " + RelText(m.path) + ":" + IntToString(m.number) + ": " + Strip(m.line)
  }

  /** The message `/search` sends for the results. */
  function SearchMessage(text: string, hits: seq<Match>): string
  {
    if hits == [] then "❌ Nenhum resultado encontrado para '" + text + "'"
    else
      "\U{1F50D} Resultados para '" + text + "':\n\n" + Join(Sorting.Image(MatchLine, Shown(hits)), "\n\n") +
      (if |hits| > DisplayCap then "\n\n... e mais " + IntToString(|hits| - DisplayCap) + " resultados" else "")
  }

  datatype SearchReply = SearchUsage | SearchSent(chunks: seq<string>)

  /** `/search <text...>` in directory `cur`. */
  method SearchText(fs: Node, cur: Path, args: seq<string>) returns (r: SearchReply)
    ensures args == [] <==> r == SearchUsage
    ensures args != [] ==>
      var text := Lower(Join(args, " "));
      r == SearchSent(Messages.Replies(SearchMessage(text, SearchHits(WalkAt(fs, cur), text, TextExtensions))))
  {
    if args == [] {
      return SearchUsage;
    }
    var text := Lower(Join(args, " "));
    var hits := SearchContent(WalkAt(fs, cur), text, TextExtensions);
    var chunks := Messages.SendChunks(SearchMessage(text, hits));
    return SearchSent(chunks);
  }

  // ---------------------------------------------------------------- /getzip

  /** `os.path.relpath(os.path.join(root, file), folder_path)` for each of `files`. */
  function ArchiveNames(rel: Path, es: seq<Entry>): seq<Path>
  {
    if es == [] then [] else ArchiveNames(rel, es[..|es| - 1]) + [rel + [es[|es| - 1].name]]
  }

  function ZipEntries(walk: seq<Visit>): seq<Path>
  {
    if walk == [] then []
    else
      var v := walk[|walk| - 1];
      ZipEntries(walk[..|walk| - 1]) + ArchiveNames(v.rel, v.files)
  }

  /** `zipf.write` reads the file: it must be a readable regular file. */
  predicate Archivable(n: Node)
  {
    n.File? && n.readable
  }

  predicate AllArchivable(es: seq<Entry>)
  {
    forall i :: 0 <= i < |es| ==> Archivable(es[i].node)
  }

  predicate WalkArchivable(walk: seq<Visit>)
  {
    forall k :: 0 <= k < |walk| ==> AllArchivable(walk[k].files)
  }

  lemma {:induction false} ArchiveNamesSource(rel: Path, es: seq<Entry>, p: Path) returns (e: Entry)
    requires p in ArchiveNames(rel, es)
    ensures e in es && p == rel + [e.name]
  {
    if p in ArchiveNames(rel, es[..|es| - 1]) {
      e := ArchiveNamesSource(rel, es[..|es| - 1], p);
      assert e in es[..|es| - 1];
    } else {
      e := es[|es| - 1];
    }
  }

  lemma {:induction false} ArchiveNamesHas(rel: Path, es: seq<Entry>, e: Entry)
    requires e in es
    ensures rel + [e.name] in ArchiveNames(rel, es)
  {
    if e != es[|es| - 1] {
      assert es == es[..|es| - 1] + [es[|es| - 1]];
      assert e in es[..|es| - 1];
      ArchiveNamesHas(rel, es[..|es| - 1], e);
    }
  }

  lemma {:induction false} ZipEntriesSource(walk: seq<Visit>, p: Path) returns (v: Visit)
    requires p in ZipEntries(walk)
    ensures v in walk && p in ArchiveNames(v.rel, v.files)
  {
    if p in ZipEntries(walk[..|walk| - 1]) {
      v := ZipEntriesSource(walk[..|walk| - 1], p);
      assert v in walk[..|walk| - 1];
    } else {
      v := walk[|walk| - 1];
    }
  }

  lemma {:induction false} ZipEntriesHas(walk: seq<Visit>, k: nat, p: Path)
    requires k < |walk| && p in ArchiveNames(walk[k].rel, walk[k].files)
    ensures p in ZipEntries(walk)
  {
    if k < |walk| - 1 {
      var init := walk[..|walk| - 1];
      assert init[k] == walk[k];
      ZipEntriesHas(init, k, p);
    }
  }

  /** The archive holds exactly the non-directories below the folder, named relative to the folder. */
  lemma ZipExact(n: Node, p: Path)
    requires WellFormed(n)
    ensures p in ZipEntries(Walk(n, [])) <==> Reached(n, p) && !Lookup(n, p).value.Dir?
  {
    if p in ZipEntries(Walk(n, [])) {
      var v := ZipEntriesSource(Walk(n, []), p);
      WalkExact(n, v);
      var e := ArchiveNamesSource(v.rel, v.files, p);
      assert e in EntriesAt(n, v.rel);
      ListedEntry(n, v.rel, e);
      LastComponent(v.rel, e.name);
    }
    if Reached(n, p) && !Lookup(n, p).value.Dir? {
      var q := p[..|p| - 1];
      var e := Entry(p[|p| - 1], Lookup(n, p).value);
      PathOfParent(p);
      ListedEntry(n, q, e);
      var v := Visit(q, DirsOf(EntriesAt(n, q)), FilesOf(EntriesAt(n, q)));
      WalkExact(n, v);
      Partitioned(EntriesAt(n, q), e);
      ArchiveNamesHas(v.rel, v.files, e);
      var k := IndexOf(Walk(n, []), v);
      ZipEntriesHas(Walk(n, []), k, p);
    }
  }

  /** The loop writing the archive; `None` when `zipf.write` raises on one of the files. */
  method WriteArchive(walk: seq<Visit>) returns (r: Option<seq<Path>>)
    ensures WalkArchivable(walk) ==> r == Some(ZipEntries(walk))
    ensures !WalkArchivable(walk) ==> r == None
  {
    var names := [];
    for k := 0 to |walk|
      invariant WalkArchivable(walk[..k])
      invariant names == ZipEntries(walk[..k])
    {
      var v := walk[k];
      var written := WriteFiles(v.rel, v.files);
      if written.None? {
        return None;
      }
      names := names + written.value;
      TakeOneMore(walk, k);
    }
    assert walk[..|walk|] == walk;
    return Some(names);
  }

  /** The inner loop over the files of one triple. */
  method WriteFiles(rel: Path, files: seq<Entry>) returns (r: Option<seq<Path>>)
    ensures AllArchivable(files) ==> r == Some(ArchiveNames(rel, files))
    ensures !AllArchivable(files) ==> r == None
  {
    var names := [];
    for j := 0 to |files|
      invariant AllArchivable(files[..j])
      invariant names == ArchiveNames(rel, files[..j])
    {
      var e := files[j];
      if !Archivable(e.node) {
        return None;
      }
      names := names + [rel + [e.name]];
      TakeOneMore(files, j);
    }
    assert files[..|files|] == files;
    return Some(names);
  }

  datatype ZipReply =
    | ZipUsage
    | ZipMissing
    | ZipFailed
    | ZipSent(archiveName: string, archivePath: Path, entries: seq<string>)

  /** `/getzip <folder>`: the folder is `args[0]` joined onto `cur`; the archive is `<folder>.zip` in `cur`. */
  method GetZip(fs: Node, cur: Path, args: seq<string>) returns (r: ZipReply)
    ensures args == [] <==> r == ZipUsage
    ensures args != [] && !ExistsJoined(fs, cur, args[0]) ==> r == ZipMissing
    ensures args != [] && ExistsJoined(fs, cur, args[0]) ==>
      var walk := WalkAt(fs, Joined(cur, args[0]));
      if WalkArchivable(walk) then
        r == ZipSent(args[0] + ".zip", Joined(cur, args[0] + ".zip"), Sorting.Image(RelText, ZipEntries(walk)))
      else r == ZipFailed
  {
    if args == [] {
      return ZipUsage;
    }
    var folder := Joined(cur, args[0]);
    if !ExistsJoined(fs, cur, args[0]) {
      return ZipMissing;
    }
    var written := WriteArchive(WalkAt(fs, folder));
    if written.None? {
      return ZipFailed;
    }
    var zipName := args[0] + ".zip";
    return ZipSent(zipName, Joined(cur, zipName), Sorting.Image(RelText, written.value));
  }
}
