/** The server-browser rows the plugin observes, the scan that selects the rows without
    the `bblog-true-players` marker, and the guarded patch-and-mark step a roster
    response performs on one row. */
module ServerView {
  import opened Text
  import opened CountPatch

  /** One `.serverguide-bodycells` row: its `guid` attribute, whether it carries the
      marker class, and the inner markup of its `.serverguide-cell-players` cell. */
  datatype Row = Row(guid: string, processed: bool, cell: string)

  /** The indices of the rows without the marker, in page order. */
  function Pending(rows: seq<Row>): (r: seq<nat>)
    ensures forall k :: 0 <= k < |r| ==> r[k] < |rows| && !rows[r[k]].processed
    ensures forall i :: 0 <= i < |rows| && !rows[i].processed ==> i in r
    ensures forall k, l :: 0 <= k < l < |r| ==> r[k] < r[l]
    decreases |rows|
  {
    if rows == [] then []
    else
      var front := Pending(rows[..|rows| - 1]);
      assert forall k :: 0 <= k < |front| ==> rows[front[k]] == rows[..|rows| - 1][front[k]];
      front + (if rows[|rows| - 1].processed then [] else [|rows| - 1])
  }

  /** The response continuation on row `i`: if the row is still unmarked, rewrite its
      players cell with the corrected count and mark it; if it is already marked, change
      nothing. Every other row is untouched. */
  function Respond(rows: seq<Row>, i: nat, count: nat, onlyRealPlayers: int): (r: seq<Row>)
    requires i < |rows|
    ensures |r| == |rows| && r[i].processed && r[i].guid == rows[i].guid
    ensures forall j :: 0 <= j < |rows| && j != i ==> r[j] == rows[j]
    ensures rows[i].processed ==> r == rows
    ensures !rows[i].processed ==> r[i].cell == PatchCell(rows[i].cell, count, onlyRealPlayers)
  {
    if rows[i].processed then rows
    else rows[i := Row(rows[i].guid, true, PatchCell(rows[i].cell, count, onlyRealPlayers))]
  }

  /** After a response on row `i`, later scans no longer select it, and select every
      other row exactly as before. */
  lemma RespondLeavesPending(rows: seq<Row>, i: nat, count: nat, onlyRealPlayers: int)
    requires i < |rows|
    ensures i !in Pending(Respond(rows, i, count, onlyRealPlayers))
    ensures forall j :: j in Pending(Respond(rows, i, count, onlyRealPlayers)) <==> j in Pending(rows) && j != i
  {
    var after := Respond(rows, i, count, onlyRealPlayers);
    var p := Pending(after);
    var q := Pending(rows);
    forall j ensures j in p <==> j in q && j != i {
      if j in p {
        var k :| 0 <= k < |p| && p[k] == j;
        assert j < |rows| && !after[j].processed;
      }
      if j in q && j != i {
        var k :| 0 <= k < |q| && q[k] == j;
        assert !after[j].processed;
      }
    }
  }

  /** One roster response: the row it was requested for, the corrected count computed
      from it, and the `only.real.players` setting captured when it was requested. */
  datatype Response = Response(row: nat, count: nat, onlyRealPlayers: int)

  predicate Addressed(events: seq<Response>, n: nat) {
    forall k :: 0 <= k < |events| ==> events[k].row < n
  }

  /** The rows after the responses arrive in the given order. */
  function Run(rows: seq<Row>, events: seq<Response>): (r: seq<Row>)
    requires Addressed(events, |rows|)
    ensures |r| == |rows|
    decreases |events|
  {
    if events == [] then rows
    else
      var e := events[0];
      Run(Respond(rows, e.row, e.count, e.onlyRealPlayers), events[1..])
  }

  /** The first response addressed to row `i`, if any: no earlier response is
      addressed to that row. */
  function FirstFor(events: seq<Response>, i: nat): (r: Option<Response>)
    ensures r.Some? ==> r.value.row == i
    ensures r.Some? ==>
      exists k :: 0 <= k < |events| && events[k] == r.value && forall j :: 0 <= j < k ==> events[j].row != i
    ensures r.None? ==> forall k :: 0 <= k < |events| ==> events[k].row != i
    decreases |events|
  {
    if events == [] then None
    else if events[0].row == i then Some(events[0])
    else
      var r := FirstFor(events[1..], i);
      assert r.Some? ==> exists k :: 0 <= k < |events| && events[k] == r.value && forall j :: 0 <= j < k ==> events[j].row != i by {
        if r.Some? {
          var k :| 0 <= k < |events[1..]| && events[1..][k] == r.value && forall j :: 0 <= j < k ==> events[1..][j].row != i;
          assert forall j :: 1 <= j < k + 1 ==> events[j] == events[1..][j - 1];
          assert events[k + 1] == r.value;
        }
      }
      r
  }

  /** A row as the response `e` leaves it: patched and marked if it was unmarked. */
  function Settled(row: Row, e: Option<Response>): Row {
    match e
    case None => row
    case Some(r) =>
      if row.processed then row else Row(row.guid, true, PatchCell(row.cell, r.count, r.onlyRealPlayers))
  }

  /** Whatever the order and number of responses, each row is patched at most once, by
      the first response addressed to it, and only if it was unmarked to begin with;
      rows no response addresses are untouched. */
  lemma {:induction false} FirstResponseWins(rows: seq<Row>, events: seq<Response>, i: nat)
    requires Addressed(events, |rows|) && i < |rows|
    ensures Run(rows, events)[i] == Settled(rows[i], FirstFor(events, i))
    decreases |events|
  {
    if events != [] {
      var e := events[0];
      var next := Respond(rows, e.row, e.count, e.onlyRealPlayers);
      assert Addressed(events[1..], |next|);
      FirstResponseWins(next, events[1..], i);
    }
  }

  /** The marker never resets, and a marked row never changes again. */
  lemma MarkerMonotone(rows: seq<Row>, events: seq<Response>, i: nat)
    requires Addressed(events, |rows|) && i < |rows|
    ensures rows[i].processed ==> Run(rows, events)[i] == rows[i]
    ensures FirstFor(events, i).Some? ==> Run(rows, events)[i].processed
  {
    FirstResponseWins(rows, events, i);
  }

  /** Responses delivered one after another compose. */
  lemma {:induction false} RunAppend(rows: seq<Row>, first: seq<Response>, second: seq<Response>)
    requires Addressed(first + second, |rows|)
    ensures Addressed(first, |rows|) && Addressed(second, |rows|)
    ensures Run(rows, first + second) == Run(Run(rows, first), second)
    decreases |first|
  {
    assert forall k :: 0 <= k < |first| ==> first[k] == (first + second)[k];
    assert forall k :: 0 <= k < |second| ==> second[k] == (first + second)[|first| + k];
    if first != [] {
      var e := first[0];
      assert (first + second)[0] == e;
      assert (first + second)[1..] == first[1..] + second;
      RunAppend(Respond(rows, e.row, e.count, e.onlyRealPlayers), first[1..], second);
    } else {
      assert first + second == second;
    }
  }

  /** A duplicate response for a row that an earlier response already settled changes
      nothing at all. */
  lemma DuplicateResponseHarmless(rows: seq<Row>, events: seq<Response>, e: Response)
    requires Addressed(events, |rows|) && e.row < |rows|
    requires FirstFor(events, e.row).Some?
    ensures Addressed(events + [e], |rows|)
    ensures Run(rows, events + [e]) == Run(rows, events)
  {
    assert forall k :: 0 <= k < |events| ==> (events + [e])[k] == events[k];
    RunAppend(rows, events, [e]);
    MarkerMonotone(rows, events, e.row);
    var mid := Run(rows, events);
    assert Run(mid, [e]) == Run(Respond(mid, e.row, e.count, e.onlyRealPlayers), []);
  }

  /** The page's list of server rows. The list itself is fixed; each row's marker and
      players cell change in place. */
  class ServerList {
    const rows: array<Row>

    constructor (initial: seq<Row>)
      ensures rows[..] == initial && fresh(rows)
    {
      rows := new Row[|initial|](i requires 0 <= i < |initial| => initial[i]);
    }

    /** `$(".serverguide-bodycells:not(.bblog-true-players)")`: the rows without the
        marker, in page order. */
    method Unprocessed() returns (pending: seq<nat>)
      ensures pending == Pending(rows[..])
    {
      pending := [];
      for i := 0 to rows.Length
        invariant pending == Pending(rows[..i])
      {
        assert rows[..i + 1][..i] == rows[..i];
        if !rows[i].processed {
          pending := pending + [i];
        }
      }
      assert rows[..rows.Length] == rows[..];
    }
  }
}
