/** The beta plugin (version 1.2-beta): the same scan, patch and marker as the release,
    a stricter page gate, and a count with the playing filter only. */
module Beta {
  import opened Text
  import opened Roster
  import opened CountPatch
  import opened ServerView
  import Release

  /** The settings the beta `domchange` reads: the endpoint URL, `only.real.players`
      and `filter.real.playing.players`. */
  datatype Settings = Settings(playersOnServerUrl: string, onlyRealPlayers: int, onlyRealPlayingPlayers: int)

  datatype Request = Request(row: nat, url: string, settings: Settings)

  /** The beta page gate: mode "bf3" and a clean URL ending in "/bf3/servers/", so only
      the server list itself. */
  predicate PageGate(mode: string, cleanUrl: string): (r: bool)
    ensures r <==> mode == "bf3" && exists x: string :: cleanUrl == x + "/bf3/servers/"
  {
    EndsWithAsSuffix(cleanUrl, "/bf3/servers/");
    mode == "bf3" && EndsWith(cleanUrl, "/bf3/servers/")
  }

  /** Every page the beta gate admits is admitted by the release gate, which also admits
      the favourites and history pages. */
  lemma GateNarrowerThanRelease(mode: string, cleanUrl: string)
    ensures PageGate(mode, cleanUrl) ==> Release.PageGate(mode, cleanUrl)
    ensures !PageGate("bf3", "/bf3/servers/favourites/") && Release.PageGate("bf3", "/bf3/servers/favourites/")
  {
    if PageGate(mode, cleanUrl) {
      var i := |cleanUrl| - 13;
      assert cleanUrl[i..i + 12] == cleanUrl[i..][..12];
      assert OccursAt(cleanUrl, "/bf3/servers", i);
    }
    var fav := "/bf3/servers/favourites/";
    assert OccursAt(fav, "/bf3/servers", 0);
    assert fav[|fav| - 13..] != "/bf3/servers/" by {
      assert fav[|fav| - 13] == 's';
    }
  }

  /** The beta count: the playing entries when the toggle is exactly 1, otherwise the
      whole roster. It is the release count with the name filter off. */
  function PlayerCount(roster: seq<Player>, onlyRealPlayingPlayers: int): (n: nat)
    ensures n <= |roster|
    ensures n == CorrectedCount(roster, FilterConfig(onlyRealPlayingPlayers, 0, Unset))
  {
    if onlyRealPlayingPlayers == 1 then |Filter((p: Player) => p.isPlaying, roster)| else |roster|
  }

  /** The beta `domchange`: off the server list nothing happens; on it, one request per
      unmarked row, in page order, to the endpoint followed by the row's guid. */
  method DomChange(settings: Settings, view: ServerList, mode: string, cleanUrl: string)
    returns (requests: seq<Request>)
    ensures !PageGate(mode, cleanUrl) ==> requests == []
    ensures PageGate(mode, cleanUrl) ==> |requests| == |Pending(view.rows[..])|
    ensures PageGate(mode, cleanUrl) ==> forall k :: 0 <= k < |requests| ==>
      var i := Pending(view.rows[..])[k];
      requests[k] == Request(i, settings.playersOnServerUrl + view.rows[i].guid, settings)
  {
    requests := [];
    if !PageGate(mode, cleanUrl) {
      return;
    }
    var pending := view.Unprocessed();
    for k := 0 to |pending|
      invariant |requests| == k
      invariant forall j :: 0 <= j < k ==>
        requests[j] == Request(pending[j], settings.playersOnServerUrl + view.rows[pending[j]].guid, settings)
    {
      var i := pending[k];
      requests := requests + [Request(i, settings.playersOnServerUrl + view.rows[i].guid, settings)];
    }
  }

  /** The beta response continuation: the count, then, only if the row is still
      unmarked, the patch selected by `only.real.players` and the marker. */
  method OnResponse(view: ServerList, request: Request, roster: seq<Player>)
    requires request.row < view.rows.Length
    modifies view.rows
    ensures view.rows[..] == Respond(old(view.rows[..]), request.row,
      PlayerCount(roster, request.settings.onlyRealPlayingPlayers), request.settings.onlyRealPlayers)
  {
    var players := PlayerCount(roster, request.settings.onlyRealPlayingPlayers);
    var i := request.row;
    if !view.rows[i].processed {
      var row := view.rows[i];
      view.rows[i] := Row(row.guid, true, PatchCell(row.cell, players, request.settings.onlyRealPlayers));
    }
  }
}
