/**
 The packaging script (zip.py): for every configured project, which zip
 archive it writes under the output directory and which member names that
 archive holds.

 The file system is abstracted: `fs` maps each existing project directory
 (as spelled in the configuration) to its contents, given as the set of
 file paths and the set of directory paths below it, relative to it and
 written with '/' (`"src/a.py"`). An archive's members are a multiset of
 names because `zipfile` writes a second entry, rather than replacing the
 first, when the same name is written twice.
 */
module Packager {
  import opened Py

  datatype Tree = Tree(files: set<string>, dirs: set<string>)

  /** Where the archives go. */
  const OutputDir := "down"

  /** `os.path.join(OUTPUT_DIR, name)`: an absolute name replaces the directory. */
  function OutputPath(name: string): (r: string)
    ensures |name| > 0 && name[0] == '/' ==> r == name
    ensures !(|name| > 0 && name[0] == '/') ==> r == OutputDir + "/" + name && name <= r[|OutputDir| + 1..]
  {
    if |name| > 0 && name[0] == '/' then name else OutputDir + "/" + name
  }

  /** "Everything" mode: `files` is empty or exactly `["."]`. */
  predicate EverythingMode(files: seq<string>)
  {
    |files| == 0 || files == ["."]
  }

  /** An item spelled "" or "." is the project directory itself. */
  predicate NamesRoot(item: string)
  {
    item == "" || item == "."
  }

  /** The files `os.walk` finds below directory `d` of the project. */
  function FilesBeneath(tree: Tree, d: string): set<string>
  {
    set f | f in tree.files && d + "/" <= f
  }

  /** The members one listed item contributes: a file gives its basename,
      a directory every file below it named relative to the project (so the
      name keeps the item's own path), anything else nothing. */
  function ItemMembers(tree: Tree, item: string): (r: multiset<string>)
    ensures forall name :: r[name] <= 1
    ensures forall name :: name in r ==> name in tree.files || (item in tree.files && name == Basename(item))
    ensures NamesRoot(item) ==> r == multiset(tree.files)
    ensures !NamesRoot(item) && item in tree.files ==> r == multiset{Basename(item)}
    ensures !NamesRoot(item) && item !in tree.files && item in tree.dirs ==>
              forall name :: name in r <==> name in tree.files && item + "/" <= name
    ensures !NamesRoot(item) && item !in tree.files && item !in tree.dirs ==> r == multiset{}
  {
    if NamesRoot(item) then multiset(tree.files)
    else if item in tree.files then multiset{Basename(item)}
    else if item in tree.dirs then multiset(FilesBeneath(tree, item))
    else multiset{}
  }

  /** List mode: the items' contributions, one after the other. */
  function ListMembers(tree: Tree, items: seq<string>): multiset<string>
  {
    if |items| == 0 then multiset{}
    else ItemMembers(tree, items[0]) + ListMembers(tree, items[1..])
  }

  /** A name is a member exactly when some listed item contributes it. */
  lemma {:induction false} InListMembers(tree: Tree, items: seq<string>, name: string)
    ensures name in ListMembers(tree, items) <==> exists i :: 0 <= i < |items| && name in ItemMembers(tree, items[i])
  {
    if |items| > 0 {
      var tail := items[1..];
      InListMembers(tree, tail, name);
      if name in ListMembers(tree, tail) {
        var i :| 0 <= i < |tail| && name in ItemMembers(tree, tail[i]);
        assert tail[i] == items[i + 1];
      }
      if exists i :: 0 <= i < |items| && name in ItemMembers(tree, items[i]) {
        var i :| 0 <= i < |items| && name in ItemMembers(tree, items[i]);
        if i > 0 {
          assert items[i] == tail[i - 1];
        }
      }
    }
  }

  /** `InListMembers` for every name at once. */
  lemma ListMembersContent(tree: Tree, items: seq<string>)
    ensures forall name :: name in ListMembers(tree, items) <==> exists i :: 0 <= i < |items| && name in ItemMembers(tree, items[i])
  {
    forall name {
      InListMembers(tree, items, name);
    }
  }

  /** The member names of the archive `create_zip_archive` writes for a
      project directory with contents `tree`. */
  function ArchiveMembers(tree: Tree, files: seq<string>): (r: multiset<string>)
    ensures EverythingMode(files) ==> r == multiset(tree.files)
    ensures forall name :: name in r ==>
              name in tree.files || exists i :: 0 <= i < |files| && files[i] in tree.files && name == Basename(files[i])
  {
    if EverythingMode(files) then multiset(tree.files)
    else
      ListMembersContent(tree, files);
      ListMembers(tree, files)
  }

  /** Listing "." as an ordinary item would give the same members as the
      "everything" special case. */
  lemma EmptyAndDotAgree(tree: Tree)
    ensures ListMembers(tree, ["."]) == ArchiveMembers(tree, [])
  {
    assert ["."][1..] == [];
  }

  /** The contributions of a list concatenate. */
  lemma {:induction false} ListMembersAppend(tree: Tree, a: seq<string>, b: seq<string>)
    ensures ListMembers(tree, a + b) == ListMembers(tree, a) + ListMembers(tree, b)
  {
    if |a| > 0 {
      assert (a + b)[1..] == a[1..] + b;
      ListMembersAppend(tree, a[1..], b);
    } else {
      assert a + b == b;
    }
  }

  /** An item that names nothing in the project changes nothing, wherever it
      sits in the list: the items after it are still processed. */
  lemma MissingItemSkipped(tree: Tree, a: seq<string>, item: string, b: seq<string>)
    requires !NamesRoot(item) && item !in tree.files && item !in tree.dirs
    ensures ListMembers(tree, a + [item] + b) == ListMembers(tree, a + b)
  {
    ListMembersAppend(tree, a + [item], b);
    ListMembersAppend(tree, a, [item]);
    ListMembersAppend(tree, a, b);
    assert ListMembers(tree, [item]) == multiset{} by {
      assert [item][1..] == [];
    }
  }

  /** An archive: its path and its member names. */
  datatype Archive = Archive(path: string, members: multiset<string>)

  /** `create_zip_archive`: nothing when the project directory does not
      exist (it returns before opening the zip), otherwise the archive. */
  function CreateZipArchive(zipFilename: string, projectPath: string, files: seq<string>, fs: map<string, Tree>): (r: Option<Archive>)
    ensures r.None? <==> projectPath !in fs
    ensures r.Some? ==> r.value.path == OutputPath(zipFilename)
    ensures r.Some? && EverythingMode(files) ==> r.value.members == multiset(fs[projectPath].files)
  {
    if projectPath !in fs then None
    else Some(Archive(OutputPath(zipFilename), ArchiveMembers(fs[projectPath], files)))
  }

  // ---------------------------------------------------------------------------
  // The configuration loop

  /** One project's configuration entry; a key that is absent is `None`. */
  datatype Entry = Entry(zipFilename: Option<string>, files: Option<seq<string>>, path: Option<string>, dir: Option<string>)

  /** `d.get(key, default)`. */
  function GetOr<T>(o: Option<T>, default: T): T
  {
    match o
    case Some(v) => v
    case None => default
  }

  /** The source directory: `path`, else `dir`, else the project name. */
  function SourceDir(project: string, e: Entry): (r: string)
    ensures e.path.Some? ==> r == e.path.value
    ensures e.path.None? && e.dir.Some? ==> r == e.dir.value
    ensures e.path.None? && e.dir.None? ==> r == project
  {
    GetOr(e.path, GetOr(e.dir, project))
  }

  /** What the loop did for one project. */
  datatype Report =
    | MissingKeys(project: string)                       // config error printed
    | MissingSourceDir(project: string, dir: string)     // warning printed, no archive
    | Built(project: string, archive: Archive)

  /** One iteration of the loop over the configuration. */
  function PackProject(project: string, e: Entry, fs: map<string, Tree>): (r: Report)
    ensures r.project == project
    ensures r.MissingKeys? <==> e.zipFilename.None? || e.files.None?
    ensures r.MissingSourceDir? <==> !r.MissingKeys? && SourceDir(project, e) !in fs
    ensures r.MissingSourceDir? ==> r.dir == SourceDir(project, e)
    ensures r.Built? ==>
              && r.archive.path == OutputPath(e.zipFilename.value)
              && r.archive.members == ArchiveMembers(fs[SourceDir(project, e)], e.files.value)
  {
    if e.zipFilename.None? || e.files.None? then MissingKeys(project)
    else
      var dir := SourceDir(project, e);
      match CreateZipArchive(e.zipFilename.value, dir, e.files.value, fs)
      case None => MissingSourceDir(project, dir)
      case Some(a) => Built(project, a)
  }

  datatype Run = NoConfiguration | Processed(reports: seq<Report>)

  /** The script's main loop: an empty configuration stops at once;
      otherwise every project is handled in order, each one on its own
      entry alone, so a bad entry does not stop the ones after it. */
  method PackAll(config: seq<(string, Entry)>, fs: map<string, Tree>) returns (run: Run)
    ensures run.NoConfiguration? <==> |config| == 0
    ensures run.Processed? ==>
              && |run.reports| == |config|
              && forall i :: 0 <= i < |config| ==> run.reports[i] == PackProject(config[i].0, config[i].1, fs)
  {
    if |config| == 0 {
      return NoConfiguration;
    }
    var reports: seq<Report> := [];
    for i := 0 to |config|
      invariant |reports| == i
      invariant forall k :: 0 <= k < i ==> reports[k] == PackProject(config[k].0, config[k].1, fs)
    {
      reports := reports + [PackProject(config[i].0, config[i].1, fs)];
    }
    return Processed(reports);
  }

  // ---------------------------------------------------------------------------
  // The output directory

  /** Whether a report wrote the archive at `p`. */
  predicate Writes(rep: Report, p: string)
  {
    rep.Built? && rep.archive.path == p
  }

  /** The output directory after the reports, starting from `existing`:
      each built archive is opened in 'w' mode and replaces any file at
      its path. */
  function Publish(existing: map<string, multiset<string>>, reports: seq<Report>): (r: map<string, multiset<string>>)
    ensures forall p :: p in existing ==> p in r
    ensures forall p :: p in r && p !in existing ==> exists i :: 0 <= i < |reports| && Writes(reports[i], p)
  {
    if |reports| == 0 then existing
    else
      var before := Publish(existing, reports[..|reports| - 1]);
      var last := reports[|reports| - 1];
      if last.Built? then before[last.archive.path := last.archive.members] else before
  }

  /** The archive left at a path is the one from the last project that
      wrote it. */
  lemma {:induction false} LastWriterWins(existing: map<string, multiset<string>>, reports: seq<Report>, p: string, i: nat)
    requires i < |reports| && Writes(reports[i], p)
    requires forall j :: i < j < |reports| ==> !Writes(reports[j], p)
    ensures p in Publish(existing, reports)
    ensures Publish(existing, reports)[p] == reports[i].archive.members
  {
    if i < |reports| - 1 {
      var prefix := reports[..|reports| - 1];
      assert forall j :: i < j < |prefix| ==> prefix[j] == reports[j];
      LastWriterWins(existing, prefix, p, i);
    }
  }

  /** A path no project wrote (a skipped project, a missing directory) is
      left as it was. */
  lemma {:induction false} UnwrittenPathUnchanged(existing: map<string, multiset<string>>, reports: seq<Report>, p: string)
    requires forall j :: 0 <= j < |reports| ==> !Writes(reports[j], p)
    ensures p in Publish(existing, reports) <==> p in existing
    ensures p in existing ==> Publish(existing, reports)[p] == existing[p]
  {
    if |reports| > 0 {
      var prefix := reports[..|reports| - 1];
      assert forall j :: 0 <= j < |prefix| ==> prefix[j] == reports[j];
      UnwrittenPathUnchanged(existing, prefix, p);
    }
  }
}
