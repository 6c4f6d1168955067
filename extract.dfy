/** `find_rars` of extract.py: pick the archive of a download directory and
    the subtitles that go with it, by the names of the directory's children. */
module Extract {
  import opened Optional
  import opened Search
  import Text

  /** The tuple `(dir_path, rarname, subname, None)`. */
  datatype Candidate = Candidate(dirPath: string, rarPath: string, subsPath: Option<string>, action: Option<string>)

  /** How a call ends: a candidate, `None` when no child looks like a RAR
      archive, or the error `os.listdir` raises on a sub child it cannot list. */
  datatype Probe = Found(candidate: Candidate) | NoArchive | ListingFailed(child: string)

  /** `'rar' in child.lower()`: "rar" occurs somewhere in the lowercased name. */
  predicate LooksRar(child: string)
    ensures LooksRar(child) <==> exists i :: Text.OccursAt(Text.Lower(child), "rar", i)
  {
    Text.ContainsIff(Text.Lower(child), "rar");
    Text.Contains(Text.Lower(child), "rar")
  }

  /** `'sub' in child.lower()`: "sub" occurs somewhere in the lowercased name. */
  predicate LooksSub(child: string)
    ensures LooksSub(child) <==> exists i :: Text.OccursAt(Text.Lower(child), "sub", i)
  {
    Text.ContainsIff(Text.Lower(child), "sub");
    Text.Contains(Text.Lower(child), "sub")
  }

  /** A child taken as the subtitles: the `elif` reaches only a child that
      does not look like a RAR archive. */
  predicate SubOnly(child: string)
  {
    !LooksRar(child) && LooksSub(child)
  }

  /** `'rar' in sub_child`, case-sensitive: "rar" occurs somewhere in the name as it is. */
  predicate NamesRar(entry: string)
    ensures NamesRar(entry) <==> exists i :: Text.OccursAt(entry, "rar", i)
  {
    Text.ContainsIff(entry, "rar");
    Text.Contains(entry, "rar")
  }

  /** A sub child whose listing fails. */
  function Unlisted(listing: string -> Option<seq<string>>): string -> bool
  {
    child => SubOnly(child) && listing(child).None?
  }

  /** `sub_rar or child`: the first entry of the sub child's listing that
      names a RAR archive, or the child itself. */
  function SubPick(child: string, entries: seq<string>): (pick: string)
    ensures (forall k :: 0 <= k < |entries| ==> !NamesRar(entries[k])) ==> pick == child
    ensures forall k :: 0 <= k < |entries| && NamesRar(entries[k]) && (forall j :: 0 <= j < k ==> !NamesRar(entries[j])) ==>
      pick == entries[k]
  {
    var k := FirstWhere(entries, NamesRar);
    if k < |entries| then entries[k] else child
  }

  /** The inner loop of `find_rars`: the first entry of a sub child's
      listing that names a RAR archive, stopping at it. */
  method FindSubRar(entries: seq<string>) returns (subRar: Option<string>)
    ensures var k := FirstWhere(entries, NamesRar);
      subRar == if k < |entries| then Some(entries[k]) else None
  {
    subRar := None;
    var j := 0;
    while j < |entries|
      invariant 0 <= j <= |entries|
      invariant forall k :: 0 <= k < j ==> !NamesRar(entries[k])
    {
      if NamesRar(entries[j]) {
        FirstWhereAt(entries, NamesRar, j);
        subRar := Some(entries[j]);
        break;
      }
      j := j + 1;
    }
    if subRar.None? {
      FirstWhereNone(entries, NamesRar);
    }
  }

  /** What `find_rars` yields, by searching the children: the error of the
      first sub child that cannot be listed; otherwise nothing when no
      child looks like a RAR archive; otherwise the last such child, with
      the pick from the last sub child if there is one. */
  function Outcome(dirPath: string, children: seq<string>, listing: string -> Option<seq<string>>): Probe
  {
    var bad := FirstWhere(children, Unlisted(listing));
    if bad < |children| then ListingFailed(children[bad])
    else
      var rar := LastWhere(children, LooksRar);
      if rar < 0 then NoArchive
      else
        var sub := LastWhere(children, SubOnly);
        FirstWhereNone(children, Unlisted(listing));
        var subsPath := if sub < 0 then None else Some(SubPick(children[sub], listing(children[sub]).value));
        Found(Candidate(dirPath, children[rar], subsPath, None))
  }

  /** `find_rars(dir_path)`, where `children` is `os.listdir(dir_path)` and
      `listing(c)` is `os.listdir(c)` (`None` when it raises). */
  method FindRars(dirPath: string, children: seq<string>, listing: string -> Option<seq<string>>) returns (r: Probe)
    ensures r == Outcome(dirPath, children, listing)
  {
    var rarName: Option<string> := None;
    var subName: Option<string> := None;
    ghost var rar, sub := -1, -1;
    var i := 0;
    while i < |children|
      invariant 0 <= i <= |children|
      invariant forall k :: 0 <= k < i ==> !Unlisted(listing)(children[k])
      invariant -1 <= rar < i && (rar >= 0 ==> LooksRar(children[rar]))
      invariant forall k :: rar < k < i ==> !LooksRar(children[k])
      invariant rarName == if rar < 0 then None else Some(children[rar])
      invariant -1 <= sub < i && (sub >= 0 ==> SubOnly(children[sub]) && listing(children[sub]).Some?)
      invariant forall k :: sub < k < i ==> !SubOnly(children[k])
      invariant subName == if sub < 0 then None else Some(SubPick(children[sub], listing(children[sub]).value))
    {
      var child := children[i];
      if LooksRar(child) {
        rarName := Some(child);
        rar := i;
      } else if LooksSub(child) {
        var entries := listing(child);
        if entries.None? {
          FirstWhereAt(children, Unlisted(listing), i);
          return ListingFailed(child);
        }
        var subRar := FindSubRar(entries.value);
        subName := if subRar.Some? then subRar else Some(child);
        sub := i;
      }
      i := i + 1;
    }
    FirstWhereNone(children, Unlisted(listing));
    LastWhereAt(children, LooksRar, rar);
    LastWhereAt(children, SubOnly, sub);
    if rarName.Some? {
      return Found(Candidate(dirPath, rarName.value, subName, None));
    }
    return NoArchive;
  }

  // ---------------------------------------------------------------------
  // What find_rars promises
  // ---------------------------------------------------------------------

  /** Every sub child can be listed. */
  predicate AllListed(children: seq<string>, listing: string -> Option<seq<string>>)
  {
    forall k :: 0 <= k < |children| && SubOnly(children[k]) ==> listing(children[k]).Some?
  }

  /** The first sub child that cannot be listed ends the call with its error. */
  lemma FailsAtFirstUnlisted(dirPath: string, children: seq<string>, listing: string -> Option<seq<string>>, k: int)
    requires 0 <= k < |children| && SubOnly(children[k]) && listing(children[k]).None?
    requires forall j :: 0 <= j < k ==> !(SubOnly(children[j]) && listing(children[j]).None?)
    ensures Outcome(dirPath, children, listing) == ListingFailed(children[k])
  {
    FirstWhereAt(children, Unlisted(listing), k);
  }

  /** With every sub child listable, the call finds nothing exactly when no
      child looks like a RAR archive, and a result always carries the
      directory and no action. */
  lemma NoArchiveIff(dirPath: string, children: seq<string>, listing: string -> Option<seq<string>>)
    requires AllListed(children, listing)
    ensures Outcome(dirPath, children, listing) == NoArchive <==> forall k :: 0 <= k < |children| ==> !LooksRar(children[k])
    ensures Outcome(dirPath, children, listing).Found? <==> exists k :: 0 <= k < |children| && LooksRar(children[k])
    ensures var r := Outcome(dirPath, children, listing);
      r.Found? ==> r.candidate.dirPath == dirPath && r.candidate.action == None
  {
    FirstWhereNone(children, Unlisted(listing));
    var rar := LastWhere(children, LooksRar);
    if exists k :: 0 <= k < |children| && LooksRar(children[k]) {
      var k :| 0 <= k < |children| && LooksRar(children[k]);
      assert rar >= k;
    }
  }

  /** The archive is the last child that looks like one: the loop
      reassigns `rarname` on every hit. */
  lemma LastRarWins(dirPath: string, children: seq<string>, listing: string -> Option<seq<string>>, k: int)
    requires AllListed(children, listing)
    requires 0 <= k < |children| && LooksRar(children[k])
    requires forall j :: k < j < |children| ==> !LooksRar(children[j])
    ensures Outcome(dirPath, children, listing).Found?
    ensures Outcome(dirPath, children, listing).candidate.rarPath == children[k]
  {
    FirstWhereNone(children, Unlisted(listing));
    LastWhereAt(children, LooksRar, k);
  }

  /** The subtitles come from the last sub child, through its listing. */
  lemma LastSubWins(dirPath: string, children: seq<string>, listing: string -> Option<seq<string>>, k: int)
    requires AllListed(children, listing)
    requires 0 <= k < |children| && SubOnly(children[k])
    requires forall j :: k < j < |children| ==> !SubOnly(children[j])
    requires Outcome(dirPath, children, listing).Found?
    ensures listing(children[k]).Some?
    ensures Outcome(dirPath, children, listing).candidate.subsPath == Some(SubPick(children[k], listing(children[k]).value))
  {
    FirstWhereNone(children, Unlisted(listing));
    LastWhereAt(children, SubOnly, k);
  }

  /** A result has no subtitles exactly when no child is a sub child; in
      particular a child whose name holds both "rar" and "sub" counts only
      as an archive. */
  lemma NoSubsIff(dirPath: string, children: seq<string>, listing: string -> Option<seq<string>>)
    requires AllListed(children, listing)
    requires Outcome(dirPath, children, listing).Found?
    ensures Outcome(dirPath, children, listing).candidate.subsPath == None <==>
      forall k :: 0 <= k < |children| && LooksSub(children[k]) ==> LooksRar(children[k])
  {
    FirstWhereNone(children, Unlisted(listing));
    var sub := LastWhere(children, SubOnly);
    if exists k :: 0 <= k < |children| && SubOnly(children[k]) {
      var k :| 0 <= k < |children| && SubOnly(children[k]);
      assert sub >= k;
    }
  }
}
