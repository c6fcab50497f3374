/**
 The updater's selection logic (main.py): which local directories count as
 installed components, how the manifest's keys are rendered as numbered
 menu choices, how a chosen string is parsed back into a manifest entry,
 and the two-step menu that decides what gets downloaded.

 The manifest is the parsed JSON object: its keys in iteration order plus
 the value stored under each key. The value type `V` is left open: the
 updater passes it unchanged to the download step as the archive name.
 */
module Updater {
  import opened Py

  datatype Manifest<V> = Manifest(keys: seq<string>, values: map<string, V>)

  /** What a Python dict guarantees: keys are unique and every key has a value. */
  ghost predicate WellFormed<V>(m: Manifest<V>)
  {
    && Distinct(m.keys)
    && forall k :: k in m.values <==> k in m.keys
  }

  // ---------------------------------------------------------------------------
  // Local inventory

  /** Directory names that are never components. */
  const GitDir := ".git"
  const CacheDir := "down"

  /** `get_local_components`: the directories of the listing, minus one
      `.git` and one `down`. `isDir` stands for `os.path.isdir`. */
  function LocalComponents(listing: seq<string>, isDir: set<string>): (r: seq<string>)
    ensures multiset(r) == multiset(Filter(listing, name => name in isDir)) - multiset{GitDir} - multiset{CacheDir}
  {
    var dirs := Filter(listing, name => name in isDir);
    RemoveFirst(RemoveFirst(dirs, GitDir), CacheDir)
  }

  predicate IsComponentDir(isDir: set<string>, name: string)
  {
    name in isDir && name != GitDir && name != CacheDir
  }

  /** A directory listing never repeats a name; on such a listing the result
      is exactly the component directories, in listing order, and neither
      reserved name survives. */
  lemma LocalComponentsOfListing(listing: seq<string>, isDir: set<string>)
    requires Distinct(listing)
    ensures LocalComponents(listing, isDir) == Filter(listing, name => IsComponentDir(isDir, name))
    ensures GitDir !in LocalComponents(listing, isDir) && CacheDir !in LocalComponents(listing, isDir)
  {
    var inDir := name => name in isDir;
    var notGit := name => name != GitDir;
    var notCache := name => name != CacheDir;
    var dirNotGit := name => name in isDir && name != GitDir;
    var dirs := Filter(listing, inDir);
    FilterDistinct(listing, inDir);
    RemoveFirstOfDistinct(dirs, GitDir, notGit);
    FilterFilter(listing, inDir, notGit, dirNotGit);
    FilterDistinct(listing, dirNotGit);
    RemoveFirstOfDistinct(Filter(listing, dirNotGit), CacheDir, notCache);
    FilterFilter(listing, dirNotGit, notCache, name => IsComponentDir(isDir, name));
  }

  // ---------------------------------------------------------------------------
  // Choice strings

  /** Whether `create_choices` keeps a key in the given mode. */
  predicate Offered(mode: string, isLocal: bool)
  {
    (mode == "update" && isLocal) || (mode == "download" && !isLocal)
  }

  /** The display string for the key at 0-based position `p`. */
  function Label(p: nat, name: string): string
  {
    Str(p + 1) + ") " + name
  }

  /** The integer `process_selection` reads from a choice string. */
  function LabelNumber(c: string): Option<int>
  {
    ParseInt(TakeUntil(c, ')'))
  }

  /** The 1-based index a choice string carries (0 if it carries none). */
  function Index(c: string): int
  {
    match LabelNumber(c)
    case Some(n) => n
    case None => 0
  }

  /** Rendering then parsing a label gives back its 1-based index. */
  lemma LabelNumberOf(p: nat, name: string)
    ensures LabelNumber(Label(p, name)) == Some(p + 1)
    ensures Index(Label(p, name)) == p + 1
  {
    var digits := Str(p + 1);
    assert ')' !in digits;
    assert Label(p, name) == digits + [')'] + (" " + name);
    TakeUntilConcat(digits, ')', " " + name);
    StrParses(p + 1);
  }

  /** Distinct positions have distinct labels, whatever the names. */
  lemma LabelInjective(p: nat, a: string, q: nat, b: string)
    requires Label(p, a) == Label(q, b)
    ensures p == q
  {
    LabelNumberOf(p, a);
    LabelNumberOf(q, b);
  }

  /** The positions, from `from` on, whose keys `create_choices` keeps
      (the `enumerate` indices that pass the mode's test), in order. */
  function Kept(keys: seq<string>, local: seq<string>, mode: string, from: nat): (ps: seq<nat>)
    requires from <= |keys|
    ensures forall j :: 0 <= j < |ps| ==> from <= ps[j] < |keys| && Offered(mode, keys[ps[j]] in local)
    ensures forall p :: from <= p < |keys| && Offered(mode, keys[p] in local) ==> p in ps
    ensures forall j, k :: 0 <= j < k < |ps| ==> ps[j] < ps[k]
    decreases |keys| - from
  {
    if from == |keys| then []
    else
      var rest := Kept(keys, local, mode, from + 1);
      if Offered(mode, keys[from] in local) then [from] + rest else rest
  }

  /** `create_choices`: the label of every kept position, in order. What
      the list holds is stated by `ChoicesShape` and `ChoiceOffered`. */
  function CreateChoices(keys: seq<string>, local: seq<string>, mode: string): seq<string>
  {
    var ps := Kept(keys, local, mode, 0);
    seq(|ps|, j requires 0 <= j < |ps| => Label(ps[j], keys[ps[j]]))
  }

  /** Every choice carries a 1-based index in 1..N and is exactly
      `str(i) + ") " + keys[i-1]` for that index; the key passes the mode's
      test; indices strictly increase; and every key that passes appears. */
  lemma ChoicesShape(keys: seq<string>, local: seq<string>, mode: string)
    ensures var r := CreateChoices(keys, local, mode);
            && (forall j :: 0 <= j < |r| ==>
                  && 1 <= Index(r[j]) <= |keys|
                  && r[j] == Label(Index(r[j]) - 1, keys[Index(r[j]) - 1])
                  && Offered(mode, keys[Index(r[j]) - 1] in local))
            && (forall p :: 0 <= p < |keys| && Offered(mode, keys[p] in local) ==> Label(p, keys[p]) in r)
            && (forall j, k :: 0 <= j < k < |r| ==> Index(r[j]) < Index(r[k]))
  {
    var ps := Kept(keys, local, mode, 0);
    var r := CreateChoices(keys, local, mode);
    assert |r| == |ps|;
    forall j | 0 <= j < |r|
      ensures r[j] == Label(ps[j], keys[ps[j]]) && Index(r[j]) == ps[j] + 1
    {
      LabelNumberOf(ps[j], keys[ps[j]]);
    }
    forall p | 0 <= p < |keys| && Offered(mode, keys[p] in local) ensures Label(p, keys[p]) in r {
      var j :| 0 <= j < |ps| && ps[j] == p;
      assert r[j] == Label(p, keys[p]);
    }
  }

  /** The label of position `p` is offered exactly when its key passes the
      mode's test. */
  lemma ChoiceOffered(keys: seq<string>, local: seq<string>, mode: string, p: nat)
    requires p < |keys|
    ensures Label(p, keys[p]) in CreateChoices(keys, local, mode) <==> Offered(mode, keys[p] in local)
  {
    var ps := Kept(keys, local, mode, 0);
    var r := CreateChoices(keys, local, mode);
    if Label(p, keys[p]) in r {
      var j :| 0 <= j < |r| && r[j] == Label(p, keys[p]);
      var q := ps[j];
      LabelInjective(p, keys[p], q, keys[q]);
    }
    if Offered(mode, keys[p] in local) {
      var j :| 0 <= j < |ps| && ps[j] == p;
      assert r[j] == Label(p, keys[p]);
    }
  }

  /** Every position is offered by exactly one of the two modes, and no
      string is offered by both. */
  lemma ModesPartition(keys: seq<string>, local: seq<string>)
    ensures forall p :: 0 <= p < |keys| ==>
              (Label(p, keys[p]) in CreateChoices(keys, local, "update")
               <==> Label(p, keys[p]) !in CreateChoices(keys, local, "download"))
    ensures forall c :: c in CreateChoices(keys, local, "update") ==> c !in CreateChoices(keys, local, "download")
  {
    forall p | 0 <= p < |keys|
      ensures Label(p, keys[p]) in CreateChoices(keys, local, "update")
              <==> Label(p, keys[p]) !in CreateChoices(keys, local, "download")
    {
      ChoiceOffered(keys, local, "update", p);
      ChoiceOffered(keys, local, "download", p);
    }
    forall c | c in CreateChoices(keys, local, "update")
      ensures c !in CreateChoices(keys, local, "download")
    {
      var updates := Kept(keys, local, "update", 0);
      var j :| 0 <= j < |updates| && CreateChoices(keys, local, "update")[j] == c;
      ChoiceOffered(keys, local, "download", updates[j]);
    }
  }

  /** A mode other than "update" or "download" offers nothing. */
  lemma UnknownModeOffersNothing(keys: seq<string>, local: seq<string>, mode: string)
    requires mode != "update" && mode != "download"
    ensures CreateChoices(keys, local, mode) == []
  {
    UnknownModeKeepsNothing(keys, local, mode, 0);
  }

  lemma {:induction false} UnknownModeKeepsNothing(keys: seq<string>, local: seq<string>, mode: string, from: nat)
    requires mode != "update" && mode != "download" && from <= |keys|
    ensures Kept(keys, local, mode, from) == []
    decreases |keys| - from
  {
    if from < |keys| {
      UnknownModeKeepsNothing(keys, local, mode, from + 1);
    }
  }

  // ---------------------------------------------------------------------------
  // Parsing a choice back

  datatype SelectionError = ValueError | IndexError

  /** `(cosa, dove)`: the manifest value to download and the directory to
      extract it into; or the exception `process_selection` raises. */
  datatype Selection<V> = Selected(archive: V, target: string) | Rejected(error: SelectionError)

  /** `process_selection`: the integer before the first ')' minus one,
      used as a Python list index into the manifest's keys. */
  function ProcessSelection<V>(c: string, m: Manifest<V>): (r: Selection<V>)
    requires WellFormed(m)
    ensures r == Rejected(ValueError) <==> LabelNumber(c).None?
    ensures r == Rejected(IndexError) <==>
              LabelNumber(c).Some? && !(-|m.keys| <= LabelNumber(c).value - 1 < |m.keys|)
    ensures r.Selected? ==> r.target in m.values && r.archive == m.values[r.target]
    ensures r.Selected? && LabelNumber(c).value >= 1 ==> r.target == m.keys[LabelNumber(c).value - 1]
    ensures r.Selected? && LabelNumber(c).value < 1 ==> r.target == m.keys[|m.keys| + LabelNumber(c).value - 1]
  {
    match LabelNumber(c)
    case None => Rejected(ValueError)
    case Some(n) =>
      match ListIndex(n - 1, |m.keys|)
      case None => Rejected(IndexError)
      case Some(p) => Selected(m.values[m.keys[p]], m.keys[p])
  }

  /** Round trip: the label of position `p` selects the key at `p` and its value. */
  lemma LabelRoundTrip<V>(m: Manifest<V>, p: nat)
    requires WellFormed(m) && p < |m.keys|
    ensures ProcessSelection(Label(p, m.keys[p]), m) == Selected(m.values[m.keys[p]], m.keys[p])
  {
    LabelNumberOf(p, m.keys[p]);
  }

  /** Every string `create_choices` offers parses back to the key it names:
      the extraction directory is that key, the download is its manifest
      value, and the key passes the mode's test. */
  lemma ChoiceRoundTrip<V>(m: Manifest<V>, local: seq<string>, mode: string, j: nat)
    requires WellFormed(m) && j < |CreateChoices(m.keys, local, mode)|
    ensures var c := CreateChoices(m.keys, local, mode)[j];
            var p := Kept(m.keys, local, mode, 0)[j];
            var r := ProcessSelection(c, m);
            && r.Selected?
            && r.archive == m.values[r.target]
            && Offered(mode, r.target in local)
            && c == Label(p, m.keys[p])
            && r.target == m.keys[p]
  {
    var p := Kept(m.keys, local, mode, 0)[j];
    LabelRoundTrip(m, p);
  }

  /** The "download new" sentinel. */
  const Sentinel := "scarica"

  /** The sentinel has no ')' and no number, so it is rejected with `ValueError`. */
  lemma SentinelRejected<V>(m: Manifest<V>)
    requires WellFormed(m)
    ensures ProcessSelection(Sentinel, m) == Rejected(ValueError)
  {
    assert ')' !in Sentinel;
    assert TakeUntil(Sentinel, ')') == Sentinel;
  }

  /** "0) ..." reads as index -1 and so selects the last key. */
  lemma ZeroSelectsLast<V>(m: Manifest<V>, rest: string)
    requires WellFormed(m) && |m.keys| > 0
    ensures var last := m.keys[|m.keys| - 1];
            ProcessSelection("0)" + rest, m) == Selected(m.values[last], last)
  {
    assert "0)" + rest == "0" + [')'] + rest;
    TakeUntilConcat("0", ')', rest);
    assert DigitsValue("0") == 0 by {
      assert "0"[..0] == [];
    }
  }

  /** A label is never mistaken for the sentinel. */
  lemma LabelIsNotSentinel(p: nat, name: string)
    ensures Label(p, name) != Sentinel
  {
    var l := Label(p, name);
    assert l[|Str(p + 1)|] == ')';
    assert ')' !in Sentinel;
  }

  // ---------------------------------------------------------------------------
  // The menu

  /** An entry of the first prompt: the "download new" choice, whose value
      is the sentinel, or one of the update strings. */
  datatype MenuItem = DownloadNew | Offer(text: string)

  function ItemValue(it: MenuItem): string
  {
    match it
    case DownloadNew => Sentinel
    case Offer(l) => l
  }

  /** `initial_choices`: "download new" followed by the update strings. */
  function InitialItems(updates: seq<string>): (r: seq<MenuItem>)
    ensures |r| == |updates| + 1 && r[0] == DownloadNew
    ensures forall j :: 0 <= j < |updates| ==> r[j + 1] == Offer(updates[j])
  {
    [DownloadNew] + seq(|updates|, j requires 0 <= j < |updates| => Offer(updates[j]))
  }

  /** How a run of the updater ends. */
  datatype Outcome<V> =
    | Install(archive: V, target: string)  // download_and_extract(cosa, dove)
    | NoNewComponents                       // nothing left to download: exit
    | NothingOffered                        // no choice at all: exit
    | SelectionFailed                       // ValueError caught at the top level
    | NoSuchComponent                       // IndexError caught at the top level

  /** The top-level `try`: `process_selection` with its exceptions caught.
      A rejected selection installs nothing. */
  function Resolve<V>(selected: string, m: Manifest<V>): (r: Outcome<V>)
    requires WellFormed(m)
    ensures r.Install? <==> ProcessSelection(selected, m).Selected?
    ensures ProcessSelection(selected, m).Selected? ==>
              r == Install(ProcessSelection(selected, m).archive, ProcessSelection(selected, m).target)
    ensures ProcessSelection(selected, m) == Rejected(ValueError) ==> r == SelectionFailed
    ensures ProcessSelection(selected, m) == Rejected(IndexError) ==> r == NoSuchComponent
  {
    match ProcessSelection(selected, m)
    case Selected(a, t) => Install(a, t)
    case Rejected(ValueError) => SelectionFailed
    case Rejected(IndexError) => NoSuchComponent
  }

  /** The download menu is empty exactly when every manifest key is installed. */
  lemma NoDownloadsIffAllLocal(keys: seq<string>, local: seq<string>)
    ensures |CreateChoices(keys, local, "download")| == 0 <==> forall p :: 0 <= p < |keys| ==> keys[p] in local
  {
    var ps := Kept(keys, local, "download", 0);
    if |ps| > 0 {
      assert keys[ps[0]] !in local;
    }
  }

  /** The "download new" branch: offer the components not installed, and
      install the one picked; stop when there are none. */
  function DownloadMenu<V>(m: Manifest<V>, local: seq<string>, secondPick: nat): (r: Outcome<V>)
    requires WellFormed(m)
    requires |CreateChoices(m.keys, local, "download")| > 0 ==>
               secondPick < |CreateChoices(m.keys, local, "download")|
    ensures r.Install? || r.NoNewComponents?
    ensures r.NoNewComponents? <==> forall p :: 0 <= p < |m.keys| ==> m.keys[p] in local
    ensures r.Install? ==> r.target !in local && r.target in m.values && r.archive == m.values[r.target]
    ensures |CreateChoices(m.keys, local, "download")| > 0 ==>
              r.Install? && r.target == m.keys[Kept(m.keys, local, "download", 0)[secondPick]]
  {
    var downloads := CreateChoices(m.keys, local, "download");
    NoDownloadsIffAllLocal(m.keys, local);
    if |downloads| == 0 then NoNewComponents
    else
      ChoiceRoundTrip(m, local, "download", secondPick);
      Resolve(downloads[secondPick], m)
  }

  /** The user chose "download new", or was sent there because nothing is updatable. */
  predicate GoesToDownload(updates: seq<string>, firstPick: nat)
  {
    |updates| == 0 || firstPick == 0
  }

  /** The first prompt returns the sentinel exactly for "download new"
      (position 0); every other position holds an update string. */
  lemma FirstAnswer(updates: seq<string>, firstPick: nat)
    requires firstPick <= |updates|
    requires forall j :: 0 <= j < |updates| ==> updates[j] != Sentinel
    ensures var selected := ItemValue(InitialItems(updates)[firstPick]);
            && (firstPick == 0 <==> selected == Sentinel)
            && (firstPick > 0 ==> selected == updates[firstPick - 1])
  {
    var items := InitialItems(updates);
    if firstPick > 0 {
      assert items[firstPick] == Offer(updates[firstPick - 1]);
    } else {
      assert items[0] == DownloadNew;
    }
  }

  /** Every update string selects an installed component, and none is the
      sentinel. */
  lemma UpdatesSelectInstalled<V>(m: Manifest<V>, local: seq<string>)
    requires WellFormed(m)
    ensures var updates := CreateChoices(m.keys, local, "update");
            forall j :: 0 <= j < |updates| ==>
              && updates[j] != Sentinel
              && ProcessSelection(updates[j], m).Selected?
              && ProcessSelection(updates[j], m).target in local
              && ProcessSelection(updates[j], m).target == m.keys[Kept(m.keys, local, "update", 0)[j]]
  {
    var updates := CreateChoices(m.keys, local, "update");
    var ps := Kept(m.keys, local, "update", 0);
    forall j | 0 <= j < |updates|
      ensures && updates[j] != Sentinel
              && ProcessSelection(updates[j], m).Selected?
              && ProcessSelection(updates[j], m).target in local
              && ProcessSelection(updates[j], m).target == m.keys[ps[j]]
    {
      LabelRoundTrip(m, ps[j]);
      LabelIsNotSentinel(ps[j], m.keys[ps[j]]);
    }
  }

  /** The top-level flow. The prompts are inputs: `firstPick` is the position
      chosen in the first menu (0 being "download new") and `secondPick`
      the position chosen in the download menu; each is only read when
      that menu is shown. */
  function RunMenu<V>(m: Manifest<V>, local: seq<string>, firstPick: nat, secondPick: nat): (r: Outcome<V>)
    requires WellFormed(m)
    requires |CreateChoices(m.keys, local, "update")| > 0 ==>
               firstPick <= |CreateChoices(m.keys, local, "update")|
    requires |CreateChoices(m.keys, local, "download")| > 0 ==>
               secondPick < |CreateChoices(m.keys, local, "download")|
    ensures !r.NothingOffered?
    ensures r.Install? || r.NoNewComponents?
    ensures r.Install? ==> r.target in m.values && r.archive == m.values[r.target]
    ensures var updates := CreateChoices(m.keys, local, "update");
            GoesToDownload(updates, firstPick) ==>
              && (r.Install? ==> r.target !in local)
              && (r.NoNewComponents? <==> forall p :: 0 <= p < |m.keys| ==> m.keys[p] in local)
    ensures var updates := CreateChoices(m.keys, local, "update");
            GoesToDownload(updates, firstPick) && |CreateChoices(m.keys, local, "download")| > 0 ==>
              r.Install? && r.target == m.keys[Kept(m.keys, local, "download", 0)[secondPick]]
    ensures var updates := CreateChoices(m.keys, local, "update");
            !GoesToDownload(updates, firstPick) ==>
              && r.Install?
              && r.target in local
              && r.target == m.keys[Kept(m.keys, local, "update", 0)[firstPick - 1]]
  {
    var updates := CreateChoices(m.keys, local, "update");
    var initial := InitialItems(updates);
    if |initial| == 1 && initial[0] == DownloadNew then
      DownloadMenu(m, local, secondPick)
    else if |initial| == 0 then
      NothingOffered
    else
      var selected := ItemValue(initial[firstPick]);
      UpdatesSelectInstalled(m, local);
      FirstAnswer(updates, firstPick);
      if selected == Sentinel then DownloadMenu(m, local, secondPick)
      else Resolve(selected, m)
  }
}
