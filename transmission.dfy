/** The torrent decision rules of torrentclient/transmission.py, over the
    torrent list the client reports. */
module Transmission {
  import opened Optional
  import opened Search

  /** The fields of a torrent that the rules read. */
  datatype Torrent = Torrent(id: int, downloadDir: string, name: string, status: string, doneDate: int)

  /** `"{}/{}".format(tor.downloadDir, tor.name)`. */
  function FullName(t: Torrent): (full: string)
    ensures |full| == |t.downloadDir| + 1 + |t.name|
    ensures full[..|t.downloadDir|] == t.downloadDir && full[|t.downloadDir|] == '/'
    ensures full[|t.downloadDir| + 1..] == t.name
  {
    t.downloadDir + "/" + t.name
  }

  /** The test `find_torrent` applies to each torrent. */
  function Named(torrentName: string): Torrent -> bool
  {
    t => torrentName == FullName(t)
  }

  /** `find_torrent`: the id of the first torrent, in list order, whose
      full name is `torrentName`; `None` stands for the source's `False`. */
  method FindTorrent(torrents: seq<Torrent>, torrentName: string) returns (r: Option<int>)
    ensures var k := FirstWhere(torrents, Named(torrentName));
      (k == |torrents| ==> r == None) && (k < |torrents| ==> r == Some(torrents[k].id))
  {
    var i := 0;
    while i < |torrents|
      invariant 0 <= i <= |torrents|
      invariant forall k :: 0 <= k < i ==> torrentName != FullName(torrents[k])
    {
      var tor := torrents[i];
      if torrentName == FullName(tor) {
        FirstWhereAt(torrents, Named(torrentName), i);
        return Some(tor.id);
      }
      i := i + 1;
    }
    FirstWhereNone(torrents, Named(torrentName));
    return None;
  }

  /** What the search promises: a hit is the id of a torrent with that full
      name before which no torrent has it, and a miss means no torrent has it. */
  lemma FirstNamed(torrents: seq<Torrent>, torrentName: string)
    ensures var k := FirstWhere(torrents, Named(torrentName));
      (k == |torrents| <==> forall j :: 0 <= j < |torrents| ==> FullName(torrents[j]) != torrentName) &&
      (k < |torrents| ==>
        FullName(torrents[k]) == torrentName && forall j :: 0 <= j < k ==> FullName(torrents[j]) != torrentName)
  {
    FirstWhereNone(torrents, Named(torrentName));
  }

  /** `is_torrent_ready`: a seeding torrent is ready, a stopped one is
      ready when it has a completion date, any other is not. */
  function IsTorrentReady(t: Torrent): (ready: bool)
    ensures t.status == "seeding" ==> ready
    ensures t.status == "stopped" ==> (ready <==> t.doneDate != 0)
    ensures t.status != "seeding" && t.status != "stopped" ==> !ready
  {
    if t.status == "seeding" then true
    else if t.status == "stopped" then t.doneDate != 0
    else false
  }
}
