/** The two-table inventory of db.py: a `files` table of (status, action)
    and a `dirs` table of (rar_path, subs_path, action), both keyed by a
    path PRIMARY KEY and written by look-up-then-update-or-insert. */
module Db {
  import opened Optional
  import opened Table

  /** A row of `files`, without its `time` column. */
  datatype FileRow = FileRow(status: Option<string>, action: Option<string>)

  /** A row of `dirs`, without its `time` column. */
  datatype DirRow = DirRow(rarPath: Option<string>, subsPath: Option<string>, action: Option<string>)

  class Inventory {
    var files: map<string, FileRow>
    var dirs: map<string, DirRow>

    /** Opens a store whose tables already hold `storedFiles` and `storedDirs`. */
    constructor (storedFiles: map<string, FileRow>, storedDirs: map<string, DirRow>)
      ensures files == storedFiles && dirs == storedDirs
    {
      files := storedFiles;
      dirs := storedDirs;
    }

    /** `lookup_file`: the row for `filename`, or nothing. */
    method LookupFile(filename: string) returns (row: Option<FileRow>)
      ensures row.None? <==> filename !in files
      ensures row.Some? ==> filename in files && row.value == files[filename]
    {
      if filename in files {
        row := Some(files[filename]);
      } else {
        row := None;
      }
    }

    /** `lookup_dir`: the row for `dirname`, or nothing. */
    method LookupDir(dirname: string) returns (row: Option<DirRow>)
      ensures row.None? <==> dirname !in dirs
      ensures row.Some? ==> dirname in dirs && row.value == dirs[dirname]
    {
      if dirname in dirs {
        row := Some(dirs[dirname]);
      } else {
        row := None;
      }
    }

    /** `add_file`: update the row for `filename` if there is one, insert it
        otherwise; the `dirs` table is not touched. */
    method AddFile(filename: string, status: Option<string>, action: Option<string>)
      modifies this
      ensures files == Upsert(old(files), filename, FileRow(status, action))
      ensures dirs == old(dirs)
    {
      var existing := LookupFile(filename);
      if existing.Some? {
        files := map p | p in files :: if p == filename then FileRow(status, action) else files[p];
      } else {
        files := files[filename := FileRow(status, action)];
      }
    }

    /** `add_dir`: update the row for `path` if there is one, insert it
        otherwise; the `files` table is not touched. */
    method AddDir(path: string, rarPath: Option<string>, subsPath: Option<string>, action: Option<string>)
      modifies this
      ensures dirs == Upsert(old(dirs), path, DirRow(rarPath, subsPath, action))
      ensures files == old(files)
    {
      var existing := LookupDir(path);
      if existing.Some? {
        dirs := map p | p in dirs :: if p == path then DirRow(rarPath, subsPath, action) else dirs[p];
      } else {
        dirs := dirs[path := DirRow(rarPath, subsPath, action)];
      }
    }
  }

  /** A sequence of `add_file` calls, each with its own row. */
  function FilesAfter(m: map<string, FileRow>, writes: seq<(string, FileRow)>): map<string, FileRow>
  {
    if writes == [] then m
    else Upsert(FilesAfter(m, writes[..|writes| - 1]), writes[|writes| - 1].0, writes[|writes| - 1].1)
  }

  /** After any sequence of `add_file` calls, a path has a row exactly when
      it was stored or written, and a path that was never written keeps
      what it had: looking it up returns nothing if it had no row. */
  lemma {:induction false} FilesAfterAt(m: map<string, FileRow>, writes: seq<(string, FileRow)>, p: string)
    ensures p in FilesAfter(m, writes) <==> p in m || exists i :: 0 <= i < |writes| && writes[i].0 == p
    ensures (forall i :: 0 <= i < |writes| ==> writes[i].0 != p) && p in m ==> FilesAfter(m, writes)[p] == m[p]
  {
    if writes != [] {
      var init := writes[..|writes| - 1];
      FilesAfterAt(m, init, p);
      assert forall i :: 0 <= i < |init| ==> init[i] == writes[i];
      if p in FilesAfter(m, writes) && p !in m && p !in FilesAfter(m, init) {
        assert writes[|writes| - 1].0 == p;
      }
    }
  }

  /** The last write to a path decides its row. */
  lemma {:induction false} FilesAfterLast(m: map<string, FileRow>, writes: seq<(string, FileRow)>, i: int)
    requires 0 <= i < |writes|
    requires forall j :: i < j < |writes| ==> writes[j].0 != writes[i].0
    ensures writes[i].0 in FilesAfter(m, writes) && FilesAfter(m, writes)[writes[i].0] == writes[i].1
  {
    var init := writes[..|writes| - 1];
    if i < |writes| - 1 {
      FilesAfterLast(m, init, i);
    }
  }
}
