/** The media checker of integrity.py: an inventory table of files with
    their check status and remediation action, a FIFO work queue filled by
    a walk of the media tree, and the loop that drains the queue, validates
    each file with an external decoder and records the verdict. */
module Integrity {
  import opened Optional
  import opened Table
  import Text

  /** A row of the `files` table: the nullable `status` and `action`
      columns (the `time` column is not modelled). */
  datatype Record = Record(status: Option<string>, action: Option<string>)

  /** The row `enqueue_path` writes for every file it keeps. */
  const Unchecked := Record(None, None)

  /** What the decoder process did: it exited with a return code, or it
      ran past its timeout. */
  datatype ToolOutcome = Exited(code: int) | TimedOut

  /** One directory of the walk: its path and the names of its files. */
  datatype WalkEntry = WalkEntry(root: string, files: seq<string>)

  // ---------------------------------------------------------------------
  // Decision rules
  // ---------------------------------------------------------------------

  /** `_check_media`: the verdict for the decoder's outcome. */
  function CheckMedia(o: ToolOutcome): (verdict: string)
    ensures verdict == "OK" <==> o == Exited(0)
    ensures verdict == "timeout" <==> o.TimedOut?
    ensures verdict == "invalid" <==> o.Exited? && o.code != 0
  {
    match o
    case TimedOut => "timeout"
    case Exited(code) => if code == 0 then "OK" else "invalid"
  }

  /** Python truthiness of a nullable text column: `None` and the empty
      string are false, any other string is true. */
  predicate Truthy(v: Option<string>)
    ensures v.None? ==> !Truthy(v)
    ensures v == Some("") ==> !Truthy(v)
    ensures v.Some? && |v.value| > 0 ==> Truthy(v)
  {
    v.Some? && v.value != ""
  }

  /** The test that makes `process_queue` pass over a file without
      checking it, `db_entry and db_entry['action'] or db_entry['status']
      is 'OK'` on an existing row: a remediation is recorded, or the file
      is known good. */
  predicate Skip(r: Record)
    ensures Truthy(r.action) ==> Skip(r)
    ensures r.status == Some("OK") ==> Skip(r)
    ensures !Truthy(r.action) && r.status != Some("OK") ==> !Skip(r)
  {
    Truthy(r.action) || r.status == Some("OK")
  }

  /** The one row `process_queue` writes for a file it checked, given the
      verdict and the configured remediation `action`. */
  function Written(state: string, action: Option<string>): (r: Record)
    ensures r.status == Some(state)
    ensures state == "OK" ==> r.action == None
    ensures state != "OK" && action == Some("delete") ==> r.action == Some("deleted")
    ensures state != "OK" && action != Some("delete") ==> r.action == None
  {
    if state == "OK" then Record(Some(state), None)
    else if action == Some("delete") then Record(Some(state), Some("deleted"))
    else Record(Some(state), None)
  }

  /** The row a file ends up with once the queue has handled it: kept if
      skipped, otherwise the row for its verdict. */
  function Settle(path: string, r: Record, action: Option<string>, oracle: string -> ToolOutcome): Record
  {
    if Skip(r) then r else Written(CheckMedia(oracle(path)), action)
  }

  /** Every path of `q` has a row in `m`. */
  predicate AllIn(q: seq<string>, m: map<string, Record>)
  {
    forall p :: p in q ==> p in m
  }

  /** The table after `process_queue` handles one item. */
  function Step(m: map<string, Record>, path: string, action: Option<string>, oracle: string -> ToolOutcome): (m': map<string, Record>)
    requires path in m
    ensures m'.Keys == m.Keys
  {
    if Skip(m[path]) then m
    else Upsert(m, path, Written(CheckMedia(oracle(path)), action))
  }

  /** The table after `process_queue` handles every item of `q`, front first. */
  function Drain(m: map<string, Record>, q: seq<string>, action: Option<string>, oracle: string -> ToolOutcome): map<string, Record>
    requires AllIn(q, m)
    decreases |q|
  {
    if q == [] then m
    else Drain(Step(m, q[0], action, oracle), q[1..], action, oracle)
  }

  /** The items `process_queue` hands to the decoder, in order. */
  function Checked(m: map<string, Record>, q: seq<string>, action: Option<string>, oracle: string -> ToolOutcome): seq<string>
    requires AllIn(q, m)
    decreases |q|
  {
    if q == [] then []
    else (if Skip(m[q[0]]) then [] else [q[0]]) + Checked(Step(m, q[0], action, oracle), q[1..], action, oracle)
  }

  /** The extension `enqueue_path` compares with the configured types:
      `os.path.splitext(file)[1][1:].lower()`. */
  function FileType(file: string): (t: string)
    ensures forall i :: 0 <= i < |t| ==> t[i] != '.' && t[i] != '/' && !('A' <= t[i] <= 'Z')
  {
    var ext := Text.Splitext(file).1;
    Text.SplitextShape(file);
    var raw := if ext == [] then [] else ext[1..];
    Text.LowerNoCapitals(raw);
    Text.Lower(raw)
  }

  /** The filter of `enqueue_path`: a file is kept when its extension is
      one of the configured `types`. */
  function Wants(types: seq<string>): string -> bool
  {
    file => FileType(file) in types
  }

  /** `file` under `root` passes the filter `keep` and is queued as `path`. */
  predicate Selected(root: string, file: string, keep: string -> bool, path: string)
  {
    path == root + "/" + file && keep(file)
  }

  /** The paths the inner loop of `enqueue_path` keeps from one directory, in order. */
  function KeptIn(root: string, files: seq<string>, keep: string -> bool): seq<string>
  {
    if files == [] then []
    else
      var last := files[|files| - 1];
      KeptIn(root, files[..|files| - 1], keep) + (if keep(last) then [root + "/" + last] else [])
  }

  /** The paths `enqueue_path` queues for a whole walk, in walk order. */
  function Kept(walk: seq<WalkEntry>, keep: string -> bool): seq<string>
  {
    if walk == [] then []
    else Kept(walk[..|walk| - 1], keep) + KeptIn(walk[|walk| - 1].root, walk[|walk| - 1].files, keep)
  }

  // ---------------------------------------------------------------------
  // The inventory and the checker
  // ---------------------------------------------------------------------

  /** The `files` table of integrity.py, keyed by path. */
  class Inventory {
    var files: map<string, Record>

    /** Opens a store whose table already holds `stored`. */
    constructor (stored: map<string, Record>)
      ensures files == stored
    {
      files := stored;
    }

    /** `lookup`: the row for `filename`, if any. */
    method Lookup(filename: string) returns (row: Option<Record>)
      ensures row.None? <==> filename !in files
      ensures row.Some? ==> filename in files && row.value == files[filename]
    {
      if filename in files {
        row := Some(files[filename]);
      } else {
        row := None;
      }
    }

    /** `log`: update the row for `filename` if there is one, insert it otherwise. */
    method Log(filename: string, status: Option<string>, action: Option<string>)
      modifies this
      ensures files == Upsert(old(files), filename, Record(status, action))
    {
      var existing := Lookup(filename);
      if existing.Some? {
        files := map p | p in files :: if p == filename then Record(status, action) else files[p];
      } else {
        files := files[filename := Record(status, action)];
      }
    }
  }

  /** `MediaChecker`: the inventory, the configured file types and the work queue. */
  class MediaChecker {
    const db: Inventory
    const types: seq<string>
    var queue: seq<string>

    /** Every queued path has a row: `enqueue_path` writes one before it queues. */
    ghost predicate Valid()
      reads this, db
    {
      AllIn(queue, db.files)
    }

    constructor (types: seq<string>, stored: map<string, Record>)
      ensures Valid() && fresh(db)
      ensures this.types == types && db.files == stored && queue == []
    {
      this.types := types;
      db := new Inventory(stored);
      queue := [];
    }

    /** `enqueue_path`: for each file of the walk whose extension is one of
        `types`, write the row (None, None) and append its path to the queue. */
    method EnqueuePath(walk: seq<WalkEntry>)
      requires Valid()
      modifies this, db
      ensures Valid()
      ensures queue == old(queue) + Kept(walk, Wants(types))
      ensures db.files == UpsertAll(old(db.files), Kept(walk, Wants(types)), Unchecked)
    {
      EnqueueWalk(walk, Wants(types));
    }

    /** The outer loop of `enqueue_path`, over the directories of the walk,
        with the extension test passed in as `keep`. */
    method EnqueueWalk(walk: seq<WalkEntry>, keep: string -> bool)
      requires Valid()
      modifies this, db
      ensures Valid()
      ensures queue == old(queue) + Kept(walk, keep)
      ensures db.files == UpsertAll(old(db.files), Kept(walk, keep), Unchecked)
    {
      ghost var queue0, files0 := queue, db.files;
      var i := 0;
      while i < |walk|
        invariant 0 <= i <= |walk|
        invariant Valid()
        invariant queue == queue0 + Kept(walk[..i], keep)
        invariant WritesAll(files0, Kept(walk[..i], keep), Unchecked, db.files)
      {
        ghost var queueMid, filesMid := queue, db.files;
        EnqueueDirectory(walk[i].root, walk[i].files, keep);
        EnqueueWalkStep(walk, keep, i, queue0, files0, queueMid, filesMid, queue, db.files);
        i := i + 1;
      }
      assert walk[..i] == walk;
      WritesAllIsUpsertAll(files0, Kept(walk, keep), Unchecked, db.files);
    }

    /** The inner loop of `enqueue_path`, over the files of one directory
        `root`: a file passing `keep` gets the row (None, None) and is queued. */
    method EnqueueDirectory(root: string, files: seq<string>, keep: string -> bool)
      requires Valid()
      modifies this, db
      ensures Valid()
      ensures queue == old(queue) + KeptIn(root, files, keep)
      ensures WritesAll(old(db.files), KeptIn(root, files, keep), Unchecked, db.files)
    {
      ghost var queue0, files0 := queue, db.files;
      var j := 0;
      while j < |files|
        invariant 0 <= j <= |files|
        invariant Valid()
        invariant queue == queue0 + KeptIn(root, files[..j], keep)
        invariant WritesAll(files0, KeptIn(root, files[..j], keep), Unchecked, db.files)
      {
        var fullPath := root + "/" + files[j];
        KeptInStep(root, files, keep, j);
        if keep(files[j]) {
          db.Log(fullPath, None, None);
          queue := queue + [fullPath];
        }
        j := j + 1;
      }
      assert files[..j] == files;
    }

    /** `process_queue`: drain the queue front first; pass over a file whose
        row says it is remediated or good, otherwise check it and write the
        row for its verdict. `checked` lists the files handed to the decoder. */
    method ProcessQueue(action: Option<string>, oracle: string -> ToolOutcome) returns (ghost checked: seq<string>)
      requires Valid()
      modifies this, db
      ensures Valid() && queue == []
      ensures db.files == Drain(old(db.files), old(queue), action, oracle)
      ensures checked == Checked(old(db.files), old(queue), action, oracle)
    {
      checked := [];
      while queue != []
        invariant Valid()
        invariant Drain(db.files, queue, action, oracle) == Drain(old(db.files), old(queue), action, oracle)
        invariant checked + Checked(db.files, queue, action, oracle) == Checked(old(db.files), old(queue), action, oracle)
        decreases |queue|
      {
        CheckedStep(db.files, queue, action, oracle, checked);
        var item := queue[0];
        queue := queue[1..];
        ghost var wasChecked := ProcessItem(item, action, oracle);
        if wasChecked {
          checked := checked + [item];
        }
      }
    }

    /** One turn of the `process_queue` loop, for `item` taken off the queue. */
    method ProcessItem(item: string, action: Option<string>, oracle: string -> ToolOutcome) returns (ghost wasChecked: bool)
      requires item in db.files
      modifies db
      ensures db.files == Step(old(db.files), item, action, oracle)
      ensures wasChecked == !Skip(old(db.files)[item])
    {
      var entry := db.Lookup(item);
      var row := entry.value;
      if Truthy(row.action) || row.status == Some("OK") {
        // already processed
        wasChecked := false;
      } else {
        var state := CheckMedia(oracle(item));
        wasChecked := true;
        if state == "OK" {
          db.Log(item, Some(state), None);
        } else if action == Some("delete") {
          db.Log(item, Some(state), Some("deleted"));
        } else {
          db.Log(item, Some(state), None);
        }
      }
    }
  }

  // ---------------------------------------------------------------------
  // Properties of the queue drain
  // ---------------------------------------------------------------------

  /** Handling a settled row again changes nothing. */
  lemma SettleIdempotent(path: string, r: Record, action: Option<string>, oracle: string -> ToolOutcome)
    ensures Settle(path, Settle(path, r, action, oracle), action, oracle) == Settle(path, r, action, oracle)
  {
  }

  /** Closed form of the drain: a queued path ends up with its settled row,
      every other row is untouched, and no row is added or removed. */
  lemma {:induction false} DrainAt(m: map<string, Record>, q: seq<string>, action: Option<string>, oracle: string -> ToolOutcome, p: string)
    requires AllIn(q, m)
    ensures Drain(m, q, action, oracle).Keys == m.Keys
    ensures p in m ==> Drain(m, q, action, oracle)[p] == if p in q then Settle(p, m[p], action, oracle) else m[p]
    decreases |q|
  {
    if q != [] {
      var m1 := Step(m, q[0], action, oracle);
      DrainAt(m1, q[1..], action, oracle, p);
      assert q == [q[0]] + q[1..];
      if p in m && p == q[0] && p in q[1..] {
        SettleIdempotent(p, m[p], action, oracle);
      }
    }
  }

  /** Running the drain twice over the same queue, with no `enqueue_path`
      in between, leaves the table as the first run did. */
  lemma DrainIdempotent(m: map<string, Record>, q: seq<string>, action: Option<string>, oracle: string -> ToolOutcome)
    requires AllIn(q, m)
    ensures AllIn(q, Drain(m, q, action, oracle))
    ensures Drain(Drain(m, q, action, oracle), q, action, oracle) == Drain(m, q, action, oracle)
  {
    var m1 := Drain(m, q, action, oracle);
    DrainAt(m, q, action, oracle, "");
    var m2 := Drain(m1, q, action, oracle);
    DrainAt(m1, q, action, oracle, "");
    forall p | p in m
      ensures m2[p] == m1[p]
    {
      DrainAt(m, q, action, oracle, p);
      DrainAt(m1, q, action, oracle, p);
      SettleIdempotent(p, m[p], action, oracle);
    }
  }

  /** A row with a recorded remediation, or with status OK, survives the drain unchanged. */
  lemma TerminalStable(m: map<string, Record>, q: seq<string>, action: Option<string>, oracle: string -> ToolOutcome, p: string)
    requires AllIn(q, m)
    requires p in m && Skip(m[p])
    ensures p in Drain(m, q, action, oracle) && Drain(m, q, action, oracle)[p] == m[p]
  {
    DrainAt(m, q, action, oracle, p);
  }

  /** One turn of the drain moves the front item, if it is checked, from
      the calls still to come to the calls made. */
  lemma CheckedStep(m: map<string, Record>, q: seq<string>, action: Option<string>, oracle: string -> ToolOutcome, c: seq<string>)
    requires AllIn(q, m) && q != []
    ensures AllIn(q[1..], Step(m, q[0], action, oracle))
    ensures c + Checked(m, q, action, oracle) ==
      (if Skip(m[q[0]]) then c else c + [q[0]]) + Checked(Step(m, q[0], action, oracle), q[1..], action, oracle)
  {
    var m1 := Step(m, q[0], action, oracle);
    assert AllIn(q[1..], m1) by {
      forall p | p in q[1..]
        ensures p in m1
      {
        assert p in q;
      }
    }
    var rest := Checked(m1, q[1..], action, oracle);
    if Skip(m[q[0]]) {
      assert Checked(m, q, action, oracle) == rest;
    } else {
      assert Checked(m, q, action, oracle) == [q[0]] + rest;
      assert c + ([q[0]] + rest) == (c + [q[0]]) + rest;
    }
  }

  /** A path reaches the decoder exactly when it is queued and its row
      before the drain does not say it is remediated or good. */
  lemma {:induction false} CheckedIff(m: map<string, Record>, q: seq<string>, action: Option<string>, oracle: string -> ToolOutcome, p: string)
    requires AllIn(q, m)
    ensures p in Checked(m, q, action, oracle) <==> p in q && !Skip(m[p])
    decreases |q|
  {
    if q != [] {
      var m1 := Step(m, q[0], action, oracle);
      CheckedIff(m1, q[1..], action, oracle, p);
      assert q == [q[0]] + q[1..];
    }
  }

  /** A bare second drain over the same queue and table, with no
      `enqueue_path` in between, hands to the decoder exactly the
      files that were checked the first time and found not OK, and only
      when the remediation action is not "delete". */
  lemma SecondDrainChecks(m: map<string, Record>, q: seq<string>, action: Option<string>, oracle: string -> ToolOutcome, p: string)
    requires AllIn(q, m)
    ensures AllIn(q, Drain(m, q, action, oracle))
    ensures p in Checked(Drain(m, q, action, oracle), q, action, oracle) <==>
      p in q && !Skip(m[p]) && CheckMedia(oracle(p)) != "OK" && action != Some("delete")
  {
    DrainAt(m, q, action, oracle, p);
    DrainIdempotent(m, q, action, oracle);
    CheckedIff(Drain(m, q, action, oracle), q, action, oracle, p);
  }

  /** With the "delete" action a bare second drain calls the decoder on nothing. */
  lemma SecondDrainQuietWithDelete(m: map<string, Record>, q: seq<string>, oracle: string -> ToolOutcome)
    requires AllIn(q, m)
    ensures AllIn(q, Drain(m, q, Some("delete"), oracle))
    ensures Checked(Drain(m, q, Some("delete"), oracle), q, Some("delete"), oracle) == []
  {
    DrainIdempotent(m, q, Some("delete"), oracle);
    var c := Checked(Drain(m, q, Some("delete"), oracle), q, Some("delete"), oracle);
    if c != [] {
      SecondDrainChecks(m, q, Some("delete"), oracle, c[0]);
      assert false;
    }
  }

  // ---------------------------------------------------------------------
  // Properties of the walk
  // ---------------------------------------------------------------------

  lemma KeptStep(walk: seq<WalkEntry>, keep: string -> bool, i: int)
    requires 0 <= i < |walk|
    ensures Kept(walk[..i + 1], keep) == Kept(walk[..i], keep) + KeptIn(walk[i].root, walk[i].files, keep)
  {
    assert walk[..i + 1][..i] == walk[..i];
  }

  /** One turn of the outer loop of `enqueue_path`: what the inner loop
      queues and writes for directory `i` extends the walk prefix by it. */
  lemma EnqueueWalkStep(walk: seq<WalkEntry>, keep: string -> bool, i: int,
                        queue0: seq<string>, files0: map<string, Record>,
                        queueMid: seq<string>, filesMid: map<string, Record>,
                        queue1: seq<string>, files1: map<string, Record>)
    requires 0 <= i < |walk|
    requires queueMid == queue0 + Kept(walk[..i], keep)
    requires WritesAll(files0, Kept(walk[..i], keep), Unchecked, filesMid)
    requires queue1 == queueMid + KeptIn(walk[i].root, walk[i].files, keep)
    requires WritesAll(filesMid, KeptIn(walk[i].root, walk[i].files, keep), Unchecked, files1)
    ensures queue1 == queue0 + Kept(walk[..i + 1], keep)
    ensures WritesAll(files0, Kept(walk[..i + 1], keep), Unchecked, files1)
  {
    KeptStep(walk, keep, i);
    var before := Kept(walk[..i], keep);
    var dir := KeptIn(walk[i].root, walk[i].files, keep);
    WritesAllAppend(files0, before, filesMid, dir, Unchecked, files1);
    assert queue1 == queue0 + (before + dir);
  }

  lemma KeptInStep(root: string, files: seq<string>, keep: string -> bool, j: int)
    requires 0 <= j < |files|
    ensures KeptIn(root, files[..j + 1], keep) ==
      KeptIn(root, files[..j], keep) + (if keep(files[j]) then [root + "/" + files[j]] else [])
  {
    assert files[..j + 1][..j] == files[..j];
  }

  /** The inner loop keeps a path exactly when it is `root/file` for a file
      of that directory that passes the filter. */
  lemma {:induction false} KeptInIff(root: string, files: seq<string>, keep: string -> bool, p: string)
    ensures p in KeptIn(root, files, keep) <==> exists j :: 0 <= j < |files| && Selected(root, files[j], keep, p)
  {
    if files != [] {
      var init := files[..|files| - 1];
      KeptInIff(root, init, keep, p);
      assert forall j :: 0 <= j < |init| ==> init[j] == files[j];
      if p in KeptIn(root, files, keep) && p !in KeptIn(root, init, keep) {
        assert Selected(root, files[|files| - 1], keep, p);
      }
    }
  }

  /** `enqueue_path` queues a path exactly when it is `root/file` for some
      directory of the walk and a file in it that passes the filter. */
  lemma {:induction false} KeptIff(walk: seq<WalkEntry>, keep: string -> bool, p: string)
    ensures p in Kept(walk, keep) <==>
      exists i, j :: 0 <= i < |walk| && 0 <= j < |walk[i].files| && Selected(walk[i].root, walk[i].files[j], keep, p)
  {
    if walk != [] {
      var init := walk[..|walk| - 1];
      var last := walk[|walk| - 1];
      KeptIff(init, keep, p);
      KeptInIff(last.root, last.files, keep, p);
      assert forall i :: 0 <= i < |init| ==> init[i] == walk[i];
      if p in KeptIn(last.root, last.files, keep) {
        var j :| 0 <= j < |last.files| && Selected(last.root, last.files[j], keep, p);
        assert Selected(walk[|walk| - 1].root, walk[|walk| - 1].files[j], keep, p);
      }
      if exists i, j :: 0 <= i < |walk| && 0 <= j < |walk[i].files| && Selected(walk[i].root, walk[i].files[j], keep, p) {
        var i, j :| 0 <= i < |walk| && 0 <= j < |walk[i].files| && Selected(walk[i].root, walk[i].files[j], keep, p);
        if i < |init| {
          assert Selected(init[i].root, init[i].files[j], keep, p);
        } else {
          assert Selected(last.root, last.files[j], keep, p);
        }
      }
    }
  }

  /** For a name with a stem that is not all dots and an extension without
      '.', the type is the extension lowercased. */
  lemma FileTypeOfName(stem: string, ext: string)
    requires '/' !in stem && '/' !in ext && '.' !in ext
    requires exists k :: 0 <= k < |stem| && stem[k] != '.'
    ensures FileType(stem + "." + ext) == Text.Lower(ext)
  {
    var name := stem + "." + ext;
    NoSlash(name);
    LastDotAt(stem, ext);
    var k :| 0 <= k < |stem| && stem[k] != '.';
    assert name[k] != '.';
    assert name[|stem|..] == "." + ext;
  }

  /** A name whose only dots lead it (a hidden file) or that has no dot has no type. */
  lemma FileTypeOfHidden(stem: string, ext: string)
    requires '/' !in stem && '/' !in ext && '.' !in ext
    requires forall k :: 0 <= k < |stem| ==> stem[k] == '.'
    ensures FileType(stem + "." + ext) == ""
  {
    var name := stem + "." + ext;
    NoSlash(name);
    LastDotAt(stem, ext);
  }

  /** A name without a '.' has no type. */
  lemma FileTypeWithoutDot(name: string)
    requires '.' !in name
    ensures FileType(name) == ""
  {
    Text.LastIndexOfAt(name, '.', -1);
  }

  lemma NoSlash(name: string)
    requires '/' !in name
    ensures Text.LastIndexOf(name, '/') == -1
  {
    Text.LastIndexOfAt(name, '/', -1);
  }

  lemma LastDotAt(stem: string, ext: string)
    requires '.' !in ext
    ensures Text.LastIndexOf(stem + "." + ext, '.') == |stem|
  {
    var name := stem + "." + ext;
    assert forall k :: |stem| < k < |name| ==> name[k] == ext[k - |stem| - 1];
    Text.LastIndexOfAt(name, '.', |stem|);
  }

  /** The filter compares extensions case-insensitively: a file
      `stem.ext` is kept exactly when `ext` lowercased is a configured type,
      so it is kept exactly when the same name with `ext` lowercased is. */
  lemma WantsByExtension(types: seq<string>, stem: string, ext: string)
    requires '/' !in stem && '/' !in ext && '.' !in ext
    requires exists k :: 0 <= k < |stem| && stem[k] != '.'
    ensures Wants(types)(stem + "." + ext) <==> Text.Lower(ext) in types
    ensures Wants(types)(stem + "." + ext) <==> Wants(types)(stem + "." + Text.Lower(ext))
  {
    FileTypeOfName(stem, ext);
    Text.LowerNoCapitals(ext);
    var low := Text.Lower(ext);
    assert '/' !in low && '.' !in low by {
      forall i | 0 <= i < |low|
        ensures low[i] != '/' && low[i] != '.'
      {
        assert low[i] == ext[i] || 'A' <= ext[i] <= 'Z';
      }
    }
    FileTypeOfName(stem, low);
    Text.LowerIdempotent(ext);
  }

  // ---------------------------------------------------------------------
  // A whole run
  // ---------------------------------------------------------------------

  /** A run that enqueues a walk and drains the queue checks every kept
      file afresh and records its verdict, whatever its row said before:
      `enqueue_path` has reset the row to (None, None). */
  lemma RunRechecksKept(m: map<string, Record>, kept: seq<string>, action: Option<string>, oracle: string -> ToolOutcome, p: string)
    ensures AllIn(kept, UpsertAll(m, kept, Unchecked))
    ensures p in kept ==>
      p in Checked(UpsertAll(m, kept, Unchecked), kept, action, oracle) &&
      p in Drain(UpsertAll(m, kept, Unchecked), kept, action, oracle) &&
      Drain(UpsertAll(m, kept, Unchecked), kept, action, oracle)[p] == Written(CheckMedia(oracle(p)), action)
  {
    var m0 := UpsertAll(m, kept, Unchecked);
    forall i | 0 <= i < |kept|
      ensures kept[i] in m0
    {
      UpsertAllAt(m, kept, Unchecked, kept[i]);
    }
    UpsertAllAt(m, kept, Unchecked, p);
    DrainAt(m0, kept, action, oracle, p);
    CheckedIff(m0, kept, action, oracle, p);
  }

  /** A second whole run over the same walk leaves the inventory as the
      first run left it: `enqueue_path` resets every kept row to (None,
      None) again, and the drain writes each one the same verdict row. */
  lemma RunIdempotent(m: map<string, Record>, kept: seq<string>, action: Option<string>, oracle: string -> ToolOutcome)
    ensures AllIn(kept, UpsertAll(m, kept, Unchecked))
    ensures var m1 := Drain(UpsertAll(m, kept, Unchecked), kept, action, oracle);
      AllIn(kept, UpsertAll(m1, kept, Unchecked)) &&
      Drain(UpsertAll(m1, kept, Unchecked), kept, action, oracle) == m1
  {
    RunRechecksKept(m, kept, action, oracle, "");
    var m0 := UpsertAll(m, kept, Unchecked);
    var m1 := Drain(m0, kept, action, oracle);
    RunRechecksKept(m1, kept, action, oracle, "");
    var n0 := UpsertAll(m1, kept, Unchecked);
    var m2 := Drain(n0, kept, action, oracle);
    forall p
      ensures p in m2 <==> p in m1
      ensures p in m2 ==> m2[p] == m1[p]
    {
      UpsertAllAt(m, kept, Unchecked, p);
      UpsertAllAt(m1, kept, Unchecked, p);
      DrainAt(m0, kept, action, oracle, p);
      DrainAt(n0, kept, action, oracle, p);
    }
  }
}
