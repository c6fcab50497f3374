# aggiorna-dj: selection logic and archive membership

A Dafny model of the two pure cores of the aggiorna-dj tool.

- **The updater (main.py).** It lists the local component directories and turns the manifest's ordered keys into numbered menu strings `"<i+1>) <name>"`. The "update" menu offers installed keys and the "download" menu offers the rest. It parses the chosen string back into `(value, key)` with Python's `int` and list indexing. It also runs the two-step menu that decides what gets installed. This part is module `Updater` in `updater.dfy`.
- **The packager (zip.py).** For each configured project it decides whether an archive is written, at which path, and under which member names. Here the file system is a map from existing project directories to their contents: a set of file paths and a set of directory paths, relative to the project. This part is module `Packager` in `packager.dfy`.
- **Shared Python semantics.** `str`, `int`, `split(')')[0]`, negative list indexing, the guarded `list.remove`, comprehension filters and `os.path.basename` are written out in module `Py` in `py.dfy`.

The network, the interactive prompt, JSON parsing, zip compression and extraction, and every file-system call are abstracted. The manifest is a key sequence plus a map. A directory listing is a sequence of names plus the set of names that are directories. A prompt answer is the position the user picks. A project directory is a `Tree`.

`download_and_extract` (main.py:106-140) only downloads the archive, extracts it and deletes it. `process_selection` returns the manifest value unchanged as the thing to download, so manifest values are an opaque type `V`.

## Model

| member | source | states |
|---|---|---|
| Py.Filter | main.py:22 | The comprehension keeps exactly the listing's elements that pass the test, and never adds any. |
| Py.RemoveFirst | main.py:25-28 | `if x in l: l.remove(x)` takes exactly one occurrence of `x` out of the multiset of names, and changes nothing when `x` is absent. |
| Py.RemoveFirstOfDistinct | main.py:25-28 | On a list without repeats, removing the first `x` is the same as filtering out every `x`. |
| Py.ListIndex | main.py:97 | Python indexing on a list of length n succeeds exactly for -n <= i < n. The position read is i itself or i + n, and it lies in 0..n-1. |
| Py.TakeUntil | main.py:90 | `s.split(')')[0]` is a prefix of s that contains no ')'. It is all of s, or it stops right before the first ')'. |
| Py.Str | main.py:61 | `str(i+1)` is a non-empty decimal numeral with no leading zero. |
| Py.ParseInt | main.py:90 | `int(...)` fails on the empty string and on text whose first character is not a digit or sign. A digits-only text yields a non-negative number. |
| Py.StrParses | main.py:90 | `int(str(n)) == n` for every n >= 0. |
| Py.DigitsValueOfStr | main.py:61 | The digits `str` writes evaluate back to the number. |
| Py.StrOfCanonical | main.py:61 | Every canonical numeral is what `str` prints for its value, so `str` is onto the canonical numerals. |
| Py.StrInjective | main.py:61 | Distinct positions get distinct numerals. |
| Py.TakeUntilConcat | main.py:90 | Splitting `a + ")" + b` at ')' gives back `a` when `a` has no ')'. |
| Py.Basename | zip.py:65 | `os.path.basename(item)` has no '/'. It is a suffix of `item`, and it is either all of `item` or preceded by a '/'. |
| Updater.LocalComponents | main.py:17-30 | The result is the listing's directories as a multiset, minus one `.git` and one `down`. |
| Updater.LocalComponentsOfListing | main.py:20-30 | On a real listing (no repeated names) neither `.git` nor `down` is returned. Every other directory is kept, in listing order. |
| Updater.Kept | main.py:55-65 | The positions `create_choices` keeps are strictly increasing and lie in 0..N-1. Each passes the mode's test, and every position that passes is kept. |
| Updater.CreateChoices | main.py:42-67 | `create_choices` itself. It has no contract of its own: `Kept`, `ChoicesShape` and `ChoiceOffered` state what the list holds. |
| Updater.LabelNumberOf | main.py:90 | Reading the number back from `"<p+1>) name"` gives p+1, for every name. |
| Updater.Label | main.py:61 | `str(i+1) + ") " + key`, the display string of a position. It has no contract of its own; `LabelNumberOf` and `LabelInjective` state what it means. |
| Updater.LabelNumber | main.py:90 | `int(choice.split(')')[0])`. It has no contract of its own; `LabelNumberOf` states that it inverts `Label`. |
| Updater.LabelInjective | main.py:61 | Two labels are equal only when they carry the same position, so no two positions share a menu string. |
| Updater.ChoicesShape | main.py:42-67 | Every entry of `create_choices` is exactly `str(i+1) + ") " + keys[i]` for an index i+1 in 1..N whose key passes the mode's test. Indices strictly increase, and every passing key appears. |
| Updater.ChoiceOffered | main.py:56-65 | The label of position p is in the list exactly when its key passes the mode's test: installed for "update", not installed for "download". |
| Updater.ModesPartition | main.py:56-65 | Each position appears in exactly one of the update and download menus, and no string appears in both. |
| Updater.UnknownModeOffersNothing | main.py:59-67 | A mode other than "update" or "download" yields an empty list. |
| Updater.ProcessSelection | main.py:85-104 | It raises ValueError exactly when the text before the first ')' is not an integer. It raises IndexError exactly when n-1 is outside -N..N-1. Otherwise it returns `(values[key], key)`, with key = keys[n-1], or keys[N+n-1] for n <= 0. |
| Updater.LabelRoundTrip | main.py:90-104 | Parsing the label of position p returns `(values[keys[p]], keys[p])`. |
| Updater.ChoiceRoundTrip | main.py:53-104 | The j-th offered string is the label of the j-th kept position p, and it parses back to `(values[keys[p]], keys[p])`. The extraction directory is that key, the download is its value, and the key passes the menu's test. |
| Updater.SentinelRejected | main.py:89-93 | The sentinel "scarica" has no ')' and is rejected with ValueError. |
| Updater.ZeroSelectsLast | main.py:90-97 | A string starting "0)" wraps to index -1 and selects the last key. |
| Updater.LabelIsNotSentinel | main.py:171 | No menu string equals the sentinel, so picking an update never enters the download branch. |
| Updater.NoDownloadsIffAllLocal | main.py:175-179 | The download menu is empty exactly when every manifest key is installed. |
| Updater.Resolve | main.py:186-193 | The run installs something exactly when the selection parses, and then installs exactly the parsed `(cosa, dove)`. A ValueError ends in the caught selection error and an IndexError in the caught "no such component" error; neither installs anything. |
| Updater.DownloadMenu | main.py:171-193 | The download branch stops exactly when every key is installed. Otherwise it installs the key at the position the user picked in the download menu, which is not installed yet, with that key's manifest value. |
| Updater.FirstAnswer | main.py:157-168 | The first prompt yields the sentinel exactly for "download new", and the chosen update string for any other position, given that no update string is the sentinel. |
| Updater.InitialItems | main.py:157 | The first menu is "download new" followed by the update strings in order, one item more than there are updates. |
| Updater.UpdatesSelectInstalled | main.py:151-171 | No update string equals the sentinel, so picking one never enters the download branch. The j-th one selects the key at the j-th kept position, which is installed. |
| Updater.RunMenu | main.py:151-193 | The "nothing at all" exit is unreachable, and so are both caught exceptions. With no updatable component the flow goes straight to the download menu. "Download new" installs the missing key the user picked, or stops exactly when all keys are installed. An update pick installs exactly the installed key the user picked. |
| Packager.OutputPath | zip.py:33 | The archive path is `down/<name>`, or the name itself when the name is absolute. |
| Packager.ItemMembers | zip.py:57-77 | A listed file gives exactly one member, its basename. A listed directory gives each file below it once, named relative to the project, so the name starts with the item's path. A missing item gives nothing. |
| Packager.FilesBeneath | zip.py:69-73 | The files `os.walk` finds below a directory item: the project's files whose path starts with the item and a '/'. It has no contract of its own; `ItemMembers` states it. |
| Packager.ListMembers | zip.py:57-77 | List mode, one item after another. It has no contract of its own; `InListMembers`, `ListMembersAppend` and `MissingItemSkipped` state what it holds. |
| Packager.InListMembers | zip.py:57-77 | A name is a member exactly when some listed item contributes it; a missing item contributes nothing and does not stop the loop. |
| Packager.ArchiveMembers | zip.py:45-77 | In "everything" mode the members are all the project's files. Otherwise every member is a project file path or the basename of a listed file. |
| Packager.EmptyAndDotAgree | zip.py:46-52 | Listing "." as an ordinary item gives the same members as the `[]` / `["."]` "everything" case. |
| Packager.ListMembersAppend | zip.py:57 | The items' contributions add up independently of each other. |
| Packager.MissingItemSkipped | zip.py:57-77 | Inserting a missing item anywhere in the list leaves the members unchanged, so later items are still processed. |
| Packager.CreateZipArchive | zip.py:29-52 | No archive exists exactly when the project directory is missing. Otherwise the archive sits at the output path, and in "everything" mode it holds all the project's files. |
| Packager.SourceDir | zip.py:108 | The source directory is `path` if present, else `dir`, else the project name. |
| Packager.PackProject | zip.py:105-117 | An entry lacking `zip_filename` or `files` is skipped. A missing source directory gives no archive. Otherwise the archive at `down/<zip_filename>` holds the members of the source tree, taken as the tree was before the run. |
| Packager.PackAll | zip.py:96-117 | An empty configuration does nothing. Otherwise there is one report per project, in order, and each depends only on that project's entry and the file system as it was before the run. |
| Packager.LastWriterWins | zip.py:43 | Archives are opened in 'w' mode, so a path holds the archive of the last project that wrote it. |
| Packager.UnwrittenPathUnchanged | zip.py:36-38 | A path no project wrote keeps its previous content. This covers skipped entries and missing source directories. |
| Packager.Publish | zip.py:43 | The output directory after the loop. No existing file disappears, and every new path is one a project built an archive at. |

## Left out

- `fetch_available_components` and the HTTP download in `download_and_extract` are network calls. The manifest is an input, and installing is the `Install(archive, target)` outcome.
- Extraction, writing and removing the downloaded file are file-system side effects of `download_and_extract`. So is creating the target directory. Exceptions those calls raise outside `RequestException` (a corrupt zip, say) are not modelled either.
- `prompt_user` is interactive. The user's picks are inputs, constrained to the offered positions; aborting the prompt is not modelled.
- The `print` messages are output only and are not modelled. This includes the one at main.py:153-154.
- `exit()`, `input()`, `os.chdir` and the creation of the output directory (zip.py:90-93) are not modelled. Each is an effect on the process or the file system.
- `load_config` and JSON parsing are plumbing. The configuration is a sequence of `(name, Entry)` whose absent keys are `None`. JSON values of the wrong type (`null`, a string for `files`) are not modelled.
- Py.ParseInt: accepts only an optional sign followed by ASCII digits. Python's `int` also accepts surrounding whitespace, underscores between digits and non-ASCII decimal digits. For a menu string the text before the first ')' is `str(p + 1)`, which is ASCII digits only (`Updater.LabelNumberOf`), so on the strings the menus offer the two parsers agree. Free text passed to `process_selection` may parse differently.
- Packager.ItemMembers: looks items up by their literal spelling, with "" and "." naming the project directory. The OS would also resolve spellings such as `./a`, `a/`, `a//b`, `..` components, absolute items and symbolic links, and these are not resolved here.
- Packager.ArchiveMembers: gives the members as a multiset. The order in which `os.walk` visits files depends on the file system and is not modelled.
- Packager.CreateZipArchive: does not model exceptions raised while an archive is written (zip.py:81-82), nor the partial file such an error leaves. Paths use '/' only; Windows separators and drive letters are not modelled.
- Updater.LocalComponents: takes `os.path.isdir` as a given set of names. The listing's order is whatever `os.listdir` returned.
- Packager.PackAll: every project is packed against `fs`, the file system as it was before the run. The script writes its archives into `down/` as it goes, and zip.py:43 creates each archive before the `os.walk` of its own project (zip.py:48, zip.py:69). So a project whose source tree contains `down/` would also pack the archives written earlier in the run, and the partly written archive itself. The model does not thread the archives written during the run back into `fs`.
