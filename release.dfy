/** The release plugin (version 1.2): `domchange` gates on the page, scans the unmarked
    rows and issues one roster request per row; the response continuation filters the
    roster, patches the row once and marks it; `getPlayersNamesToFilter` edits the
    stored list of ignored names. */
module Release {
  import opened Text
  import opened Roster
  import opened CountPatch
  import opened ServerView

  /** The settings `domchange` reads from storage, captured by every request it issues. */
  datatype Settings = Settings(playersOnServerUrl: string, onlyRealPlayers: int, filters: FilterConfig)

  /** One roster request: the row it is for, the endpoint URL with the row's guid, and
      the settings the continuation will use. */
  datatype Request = Request(row: nat, url: string, settings: Settings)

  /** The page gate: mode "bf3" and a clean URL matching `.*\/bf3\/servers.*`, that is,
      containing "/bf3/servers" anywhere (server list, favourites and history pages). */
  predicate PageGate(mode: string, cleanUrl: string): (r: bool)
    ensures r <==> mode == "bf3" && exists x: string, y: string :: cleanUrl == x + "/bf3/servers" + y
  {
    ContainsAsInfix(cleanUrl, "/bf3/servers");
    mode == "bf3" && Contains(cleanUrl, "/bf3/servers")
  }

  /** The value `getPlayersNamesToFilter` stores for the prompt's answer: a non-empty
      answer is split on ",", untrimmed and case preserved; an empty or cancelled answer
      stores "". */
  function ParseAnswer(answer: Option<string>): (r: StoredNames)
    ensures answer.Some? && answer.value != "" ==>
      r.Names? && Join(r.list, ',') == answer.value && forall k :: 0 <= k < |r.list| ==> ',' !in r.list[k]
    ensures !(answer.Some? && answer.value != "") ==> r == Cleared
  {
    if answer.Some? && answer.value != "" then
      JoinSplit(answer.value, ',');
      Names(Split(answer.value, ','))
    else Cleared
  }

  /** The text the prompt is pre-filled with: the stored list as JavaScript turns an
      array into a string (joined with ","), or nothing when the stored value is falsy. */
  function PromptDefault(stored: StoredNames): (r: Option<string>)
    ensures r.Some? <==> Truthy(stored)
    ensures forall s :: s != "" && stored == ParseAnswer(Some(s)) ==> r == Some(s)
  {
    if Truthy(stored) then Some(Join(stored.list, ',')) else None
  }

  /** Accepting the pre-filled prompt unchanged stores the same list again. */
  lemma ResubmitKeepsNames(s: string)
    requires s != ""
    ensures ParseAnswer(PromptDefault(ParseAnswer(Some(s)))) == ParseAnswer(Some(s))
  {
  }

  /** Splitting is exactly what the editor stores: the pieces of a non-empty answer, in
      order, between its commas. */
  lemma ParseAnswerPieces(parts: seq<string>)
    requires |parts| >= 1 && Join(parts, ',') != ""
    requires forall k :: 0 <= k < |parts| ==> ',' !in parts[k]
    ensures ParseAnswer(Some(Join(parts, ','))) == Names(parts)
  {
    SplitJoin(parts, ',');
  }

  /** The editor input "a,,b" stores an empty name, and with the name filter on that
      empty alternative drops every player. */
  lemma EmptyPieceDropsEveryone(roster: seq<Player>, filterPlaying: int)
    ensures ParseAnswer(Some("a,,b")) == Names(["a", "", "b"])
    ensures CorrectedCount(roster, FilterConfig(filterPlaying, 1, ParseAnswer(Some("a,,b")))) == 0
  {
    ParseAnswerPieces(["a", "", "b"]);
    assert Join(["a", "", "b"], ',') == "a,,b" by {
      assert ["a", "", "b"][..2] == ["a", ""];
      assert ["a", ""][..1] == ["a"];
    }
    EmptyNameDropsEveryone(roster, FilterConfig(filterPlaying, 1, Names(["a", "", "b"])));
  }

  /** The plugin's BBLog storage. */
  class PluginStorage {
    var playersOnServerUrl: string
    var onlyRealPlayers: int
    var filterRealPlayingPlayers: int
    var filterPlayersNames: int
    var filteredPlayersNames: StoredNames

    /** Storage as the plugin leaves it after loading: the endpoint URL stored, every
        toggle at its initial 0, no names stored. */
    constructor (url: string)
      ensures playersOnServerUrl == url && filteredPlayersNames == Unset
      ensures onlyRealPlayers == 0 && filterRealPlayingPlayers == 0 && filterPlayersNames == 0
    {
      playersOnServerUrl := url;
      onlyRealPlayers := 0;
      filterRealPlayingPlayers := 0;
      filterPlayersNames := 0;
      filteredPlayersNames := Unset;
    }

    /** The settings `domchange` reads at the start of a scan. */
    function Snapshot(): Settings
      reads this
    {
      Settings(playersOnServerUrl, onlyRealPlayers,
        FilterConfig(filterRealPlayingPlayers, filterPlayersNames, filteredPlayersNames))
    }

    /** `getPlayersNamesToFilter`: shows the prompt pre-filled with the stored list (the
        returned text) and stores the parsed answer; nothing else in storage changes. */
    method EditNames(answer: Option<string>) returns (prefill: Option<string>)
      modifies this`filteredPlayersNames
      ensures prefill == PromptDefault(old(filteredPlayersNames))
      ensures filteredPlayersNames == ParseAnswer(answer)
    {
      var stored := filteredPlayersNames;
      if Truthy(stored) {
        prefill := Some(Join(stored.list, ','));
      } else {
        prefill := None;
      }
      if answer.Some? && answer.value != "" {
        filteredPlayersNames := Names(Split(answer.value, ','));
      } else {
        filteredPlayersNames := Cleared;
      }
    }
  }

  /** `domchange`: off the server pages nothing happens; on them, one request per row
      without the marker, in page order, to the stored endpoint followed by the row's
      guid, each carrying the settings read at the start of the scan. */
  method DomChange(storage: PluginStorage, view: ServerList, mode: string, cleanUrl: string)
    returns (requests: seq<Request>)
    ensures !PageGate(mode, cleanUrl) ==> requests == []
    ensures PageGate(mode, cleanUrl) ==> |requests| == |Pending(view.rows[..])|
    ensures PageGate(mode, cleanUrl) ==> forall k :: 0 <= k < |requests| ==>
      var i := Pending(view.rows[..])[k];
      requests[k] == Request(i, storage.playersOnServerUrl + view.rows[i].guid, storage.Snapshot())
  {
    requests := [];
    if !PageGate(mode, cleanUrl) {
      return;
    }
    var settings := storage.Snapshot();
    var pending := view.Unprocessed();
    for k := 0 to |pending|
      invariant |requests| == k
      invariant forall j :: 0 <= j < k ==>
        requests[j] == Request(pending[j], settings.playersOnServerUrl + view.rows[pending[j]].guid, settings)
    {
      var i := pending[k];
      requests := requests + [Request(i, settings.playersOnServerUrl + view.rows[i].guid, settings)];
    }
  }

  /** The response continuation of one request: the corrected count from the roster and
      the captured settings, then, only if the row is still unmarked, the patch of its
      players cell and the marker. */
  method OnResponse(view: ServerList, request: Request, roster: seq<Player>)
    requires request.row < view.rows.Length
    modifies view.rows
    ensures view.rows[..] == Respond(old(view.rows[..]), request.row,
      CorrectedCount(roster, request.settings.filters), request.settings.onlyRealPlayers)
  {
    var count := CorrectedCount(roster, request.settings.filters);
    var i := request.row;
    if !view.rows[i].processed {
      var row := view.rows[i];
      view.rows[i] := Row(row.guid, true, PatchCell(row.cell, count, request.settings.onlyRealPlayers));
    }
  }
}
