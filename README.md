# media_validator, modelled in Dafny

media_validator walks a media tree and checks every file with an external
decoder. It records each verdict in a persistent inventory and can
remediate bad files. This project models the bookkeeping core of that
program and proves properties of it:

- **The inventory and check loop of `integrity.py`** (`Integrity`).
  - `Inventory` is a `files` table keyed by path. `lookup` reads a row; `log` updates the row or inserts it.
  - `MediaChecker.enqueue_path` keeps the walked files whose lowercased extension is a configured type. It writes the row (None, None) for each one and queues its path.
  - `process_queue` drains that FIFO queue. It passes over a file whose row records a remediation or the status OK. Any other file it hands to the decoder, then writes exactly one row chosen by the verdict and the configured action.
  - `_check_media` maps the decoder's outcome to "OK", "invalid" or "timeout".
- **The two-table inventory of `db.py`** (`Db`): a `files` and a `dirs` table, each keyed by path and written by lookup-then-update-or-insert.
- **The torrent rules of `torrentclient/transmission.py`** (`Transmission`):
  - `find_torrent` is a first-match search on `downloadDir/name`;
  - `is_torrent_ready` is the seeding / stopped-and-done rule.
- **`find_rars` of `extract.py`** (`Extract`): picks a directory's RAR archive and its subtitles from the names of its children.

Shared modules:

- `Table`: the upsert on a map and its closed forms.
- `Text`: `str.lower`, the substring test `in`, `str.rfind` and `os.path.splitext`.
- `Search`: first and last match in a sequence.
- `Optional`: Python's `None`.

Modelling decisions:

- **`is` is value equality.** The source compares strings and small ints with `is` in several places: `returncode is 0`, `status is 'OK'`, `state is "OK"`, `action is 'delete'`, the torrent-name test, `status is "seeding"`, `status is "stopped"` and `doneDate is not 0`. Identity of equal strings and ints is a CPython accident, so the model reads every one of these as `==` / `!=`. This changes what three of the tests do. As written in CPython they compare a literal against a fresh string object, so they are never true:
  - the name formatted at torrentclient/transmission.py:10, so `find_torrent` never matches and always returns False;
  - the status read back from sqlite at integrity.py:74, so the status-OK skip never fires;
  - the `action` parsed from the command line at integrity.py:82, so "deleted" is never written.

  For `state is "OK"` (a literal returned by `_check_media`) and the tests against the small int 0, CPython's interning and small-int cache make `is` agree with `==`. Whether `status is "seeding"` and `status is "stopped"` can hold depends on how the transmissionrpc library builds its status strings; that library is not part of this model.
- **A table is a `map`.** Each table is a `map` from the PRIMARY KEY path to the rest of the row. So a table can never hold two rows for one path. Lookup-then-update and insert both become the same map update, `Table.Upsert`.
- **The decoder is an oracle.** The decoder run is a total function `oracle: path -> ToolOutcome` (exit code or timeout), fixed for the whole run. Statements about two runs therefore assume the files did not change in between.
- **The walk is data.** `os.walk(path)` is a given sequence of `(root, files)` entries, taken in that order. `os.listdir` in `find_rars` is a given list of children plus a function `listing` for the nested listings. `listing` returns `None` where `os.listdir` raises.
- **Every queued path has a row.** `MediaChecker.Valid()` says that every path in the queue has a row in the inventory. `enqueue_path`, the only producer of the queue, writes that row first. Under that invariant the `db_entry['status']` access in `process_queue` never meets a missing row.
- **The file type is computed as CPython does.** `os.path.splitext` follows `genericpath._splitext`: the extension starts at the last '.' after the last '/'. Leading dots of the name do not count, so `.mkv` has no extension. `lower` maps ASCII letters only.

Where the design and the code disagree, the model follows the code:

- **`enqueue_path` writes the inventory.** The design describes a walker that writes nothing. The code writes (None, None) over the row of every kept file (integrity.py:65). Such a file is therefore never passed over: it is checked again on every full run, even when a remediation or status OK was recorded before (`Integrity.RunRechecksKept`). So terminal rows are stable under `process_queue` alone (`Integrity.TerminalStable`) but not across whole runs.
- **A second run leaves the same inventory, but not zero decoder runs.** A second whole run over the same walk (`enqueue_path` then `process_queue`) leaves the inventory as the first run left it (`Integrity.RunIdempotent`). But it hands every kept file to the decoder again (`Integrity.RunRechecksKept`); the design promises zero decoder runs on the second pass. No run of the program drains the same queue twice, since `process_queue` empties it and only `enqueue_path` refills it. The lemmas about a bare second drain (`Integrity.DrainIdempotent`, `Integrity.SecondDrainChecks`, `Integrity.SecondDrainQuietWithDelete`) isolate what the skip test alone would give: the same table, with the decoder still called on every file found not OK unless the action is "delete".
- **A file without an extension has type "".** The design ignores such files. The code keeps them whenever "" is one of the configured types (`Integrity.FileTypeWithoutDot`).
- **A stopped torrent with a completion date is ready.** The design treats it as not active. `is_torrent_ready` returns True for it, and the model does too.

## Model

| member | source | states |
|---|---|---|
| Table.Upsert | integrity.py:26-30 | after writing row v under path k, k has row v, the keys are the old keys plus k, and every other row is unchanged |
| Table.UpsertSize | db.py:36-41 | a write adds a row exactly when the path had none; otherwise the row count stays |
| Table.UpsertAllAt | integrity.py:61-66 | writing (None, None) under the kept paths gives every kept path that row, adds no other key and leaves every other row as it was |
| Integrity.Inventory.constructor | integrity.py:12-17 | the store opens on the rows already stored |
| Integrity.Inventory.Lookup | integrity.py:22-24 | nothing for a path without a row, otherwise exactly its row |
| Integrity.Inventory.Log | integrity.py:26-30 | the table afterwards is the upsert of (status, action) under the path, whether the row existed or not |
| Integrity.Truthy | integrity.py:74 | `None` and the empty string are false, any other string is true |
| Integrity.Skip | integrity.py:74 | `db_entry and db_entry['action'] or db_entry['status'] is 'OK'` on an existing row: passed over when a remediation is recorded or the status is OK, checked in every other case |
| Integrity.CheckMedia | integrity.py:47-57 | "OK" exactly for exit code 0, "timeout" exactly for a timeout, "invalid" exactly for a non-zero exit code |
| Integrity.Written | integrity.py:77-88 | the row written for a checked file: status is the verdict; action is "deleted" exactly for a non-OK verdict under the "delete" action, None otherwise |
| Integrity.Step | integrity.py:72-88 | handling one queued item neither adds nor removes a row |
| Integrity.MediaChecker.constructor | integrity.py:37-42 | a fresh inventory on the stored rows, the configured types, an empty queue |
| Integrity.MediaChecker.EnqueuePath | integrity.py:59-68 | the queue grows by the kept paths of the walk in walk order, and the table is the old one with (None, None) written under each of them; every queued path has a row |
| Integrity.MediaChecker.EnqueueWalk | integrity.py:60-66 | the outer loop over the walk's directories appends, directory by directory, what the inner loop keeps, and writes exactly those rows |
| Integrity.MediaChecker.EnqueueDirectory | integrity.py:61-66 | the inner loop queues `root/file` for each file passing the type test, in order, and writes (None, None) under exactly those paths |
| Integrity.MediaChecker.ProcessQueue | integrity.py:70-88 | the queue ends empty, the table is the front-first drain of the old queue over the old table, and the decoder was called on exactly the checked sequence |
| Integrity.MediaChecker.ProcessItem | integrity.py:72-88 | one turn: a skipped item leaves the table alone, a checked one gets the row for its verdict; it reports whether the decoder was called |
| Integrity.SettleIdempotent | integrity.py:73-88 | handling an item whose row the drain has already settled changes nothing |
| Integrity.DrainAt | integrity.py:70-88 | after the drain, a queued path holds its settled row, every other row is unchanged, and the key set is the same |
| Integrity.DrainIdempotent | integrity.py:70-88 | a bare second drain of the same queue, with no `enqueue_path` in between, leaves the table as the first drain left it |
| Integrity.TerminalStable | integrity.py:73-75 | a row with a truthy action or status OK survives the drain unchanged |
| Integrity.CheckedStep | integrity.py:71-77 | one turn moves the front item, when it is not skipped, from the calls still to come to the calls made |
| Integrity.CheckedIff | integrity.py:73-77 | a path reaches the decoder exactly when it is queued and its row before the drain neither records a remediation nor status OK |
| Integrity.SecondDrainChecks | integrity.py:73-88 | a bare second drain of the same queue calls the decoder on exactly the queued files that were checked and found not OK the first time, and only when the action is not "delete" |
| Integrity.SecondDrainQuietWithDelete | integrity.py:82-85 | with the "delete" action a bare second drain calls the decoder on nothing |
| Integrity.KeptInIff | integrity.py:61-66 | the inner loop queues a path exactly when it is `root/file` for a file of that directory passing the test |
| Integrity.KeptIff | integrity.py:59-66 | `enqueue_path` queues a path exactly when it is `root/file` for some directory of the walk and a file in it passing the test |
| Integrity.FileType | integrity.py:63 | the type of a file name holds no '.', no '/' and no ASCII capital, so a configured type containing any of them never matches |
| Integrity.FileTypeOfName | integrity.py:63 | for a name `stem.ext` whose stem is not all dots and whose ext holds no '.', the type is ext lowercased |
| Integrity.FileTypeOfHidden | integrity.py:63 | a name whose only dots lead it has type "" |
| Integrity.FileTypeWithoutDot | integrity.py:63 | a name without a '.' has type "" |
| Integrity.WantsByExtension | integrity.py:63-64 | `stem.ext` passes the filter exactly when ext lowercased is one of the types, and exactly when `stem.` followed by ext lowercased passes it |
| Integrity.RunRechecksKept | integrity.py:59-88 | after `enqueue_path` has written (None, None), a drain of the kept paths calls the decoder on every one of them and leaves it with the row for its verdict, whatever it held before |
| Integrity.RunIdempotent | integrity.py:59-88 | a second whole run over the same walk — `enqueue_path` resetting the kept rows, then the drain — leaves the inventory exactly as the first run left it |
| Db.Inventory.constructor | db.py:12-23 | the store opens on the stored `files` and `dirs` rows |
| Db.Inventory.LookupFile | db.py:28-30 | nothing for a path without a `files` row, otherwise exactly its row |
| Db.Inventory.LookupDir | db.py:32-34 | nothing for a path without a `dirs` row, otherwise exactly its row |
| Db.Inventory.AddFile | db.py:36-42 | `files` afterwards is the upsert of (status, action) under the path; `dirs` is unchanged |
| Db.Inventory.AddDir | db.py:44-50 | `dirs` afterwards is the upsert of (rar_path, subs_path, action) under the path; `files` is unchanged |
| Db.FilesAfterAt | db.py:28-42 | after any sequence of `add_file` calls a path has a row exactly when it was stored or written; a path never written keeps its row, and one that had none still looks up as nothing |
| Db.FilesAfterLast | db.py:36-42 | the last `add_file` on a path decides its row |
| Search.FirstWhere | torrentclient/transmission.py:9-13 | the index found passes the test and none before it does; it is the length when none passes |
| Search.LastWhere | extract.py:8-10 | the index found passes the test and none after it does; it is -1 when none passes |
| Transmission.FullName | torrentclient/transmission.py:10 | `"{}/{}".format(downloadDir, name)`: the download directory, one '/', then the name |
| Transmission.FindTorrent | torrentclient/transmission.py:8-14 | the id of the first torrent whose `downloadDir/name` equals the name asked for, or None when there is none |
| Transmission.FirstNamed | torrentclient/transmission.py:9-14 | the search misses exactly when no torrent has the name, and a hit has the name with no torrent before it having it |
| Transmission.IsTorrentReady | torrentclient/transmission.py:19-27 | True when seeding; when stopped, True exactly when doneDate is not 0; False for any other status |
| Text.Lower | integrity.py:63 | `lower` keeps the length |
| Text.LowerNoCapitals | integrity.py:63 | after `lower` no ASCII capital is left, and a character changes exactly when it is an ASCII capital |
| Text.LowerIdempotent | extract.py:9 | lowercasing twice is lowercasing once |
| Text.ContainsIff | extract.py:9 | the substring test holds exactly when the substring occurs at some index |
| Text.LastIndexOfIsLast | integrity.py:63 | no character after the one `rfind` finds is the one searched for |
| Text.Splitext | integrity.py:63 | `os.path.splitext`: the root and the extension concatenate back to the path |
| Text.SplitextShape | integrity.py:63 | a non-empty extension starts with its only '.' and holds no '/' |
| Extract.LooksRar | extract.py:9 | `'rar' in child.lower()`: "rar" occurs at some index of the lowercased name |
| Extract.LooksSub | extract.py:11 | `'sub' in child.lower()`: "sub" occurs at some index of the lowercased name |
| Extract.NamesRar | extract.py:14 | `'rar' in sub_child`: "rar" occurs at some index of the name as listed, case-sensitively |
| Extract.SubPick | extract.py:12-17 | `sub_rar or child`: the first listed entry whose name holds "rar", or the child itself when no entry does |
| Extract.FindSubRar | extract.py:12-16 | the inner loop stops at the first entry holding "rar" (case-sensitive) and yields it, or nothing |
| Extract.FindRars | extract.py:5-19 | the result is the error of the first unlistable sub child, otherwise nothing without a RAR-looking child, otherwise the last such child with the pick from the last sub child |
| Extract.FailsAtFirstUnlisted | extract.py:11-13 | the first sub child whose listing fails ends the call with that error |
| Extract.NoArchiveIff | extract.py:8-19 | with every sub child listable, the call returns nothing exactly when no child holds "rar" case-insensitively; otherwise it returns a candidate for the directory whose fourth element is None |
| Extract.LastRarWins | extract.py:8-10 | the archive is the last child holding "rar", case-insensitively |
| Extract.LastSubWins | extract.py:11-17 | the subtitles are the pick from the last child holding "sub" but not "rar" |
| Extract.NoSubsIff | extract.py:7-17 | a candidate has no subtitles exactly when every child holding "sub" also holds "rar", since the `elif` takes such a child as the archive |

## Left out

- Running `ffmpeg` through `subprocess` (integrity.py:49): the oracle stands in for it. Its 300-second timeout is not modelled.
- Integrity.CheckMedia: maps a timeout to "timeout", as the handler intends. As written, `subprocess.run` raises `TimeoutExpired`, which `except TimeoutError` does not catch, so a timeout escapes `_check_media` as an exception.
- The sqlite connection, table creation, cursors, `commit`/`close` and the `__enter__`/`__exit__` methods: resource plumbing with no effect on the rows.
- The `time` column and `datetime.now()`: a clock reading that is not deterministic. Rows carry no timestamp.
- Logging, throughout.
- `os.walk` and `os.listdir` themselves: their results are inputs. A failure to list `dir_path` itself in `find_rars` is not modelled.
- The removal of the file under the "delete" action: it is commented out in the source (integrity.py:83), so only the row changes.
- Db.Inventory.constructor: models the store db.py means to open. As written it never assigns its cursor `self.c`, `atexit` is not imported, and `add_dir` calls `datetime.datetime.now()` after `from datetime import datetime`. So db.py as written cannot even be imported: the class body evaluates `@atexit.register` (db.py:52) and raises NameError. Were it imported, the constructor would raise on the undefined `setup_logger` (db.py:16) before any query. The model follows the intended upsert on two tables.
- Extract.FindRars: `listing(c)` is `os.listdir(c)` on the bare child name. As written that name is resolved against the current directory, not `dir_path`; the model does not relate the two.
- `extract.recursive_unrar`: RAR extraction and file removal. It also refers to an undefined `self`.
- The `transmissionrpc` client construction, `recheck_torrent` and the `get_torrent` call: network calls.
- Transmission.IsTorrentReady: takes the torrent record that `get_torrent(torrent_id)` returns. The lookup by id and its failure for an unknown id are not modelled.
- Transmission.FindTorrent: returns `None` where the source returns `False`. A caller that tests the result for truth would also treat a torrent id of 0 as not found; that ambiguity is not modelled.
- Text.Lower: `lower` maps only the ASCII letters; Unicode case mapping is not modelled.
- `__main__.py`: command-line and configuration scaffolding.
