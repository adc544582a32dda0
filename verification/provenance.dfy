/** The placement-provenance decision: was a block placed by a player?

    The ledger's history is walked from its last index down to its first,
    which the code reads as newest to oldest. Null
    parses and records of other actions are passed over; the first placement
    met decides, and it says "player-placed" exactly when its player is
    present and carries no system marker. Running out of history, a missing
    ledger handle, a null or empty lookup and any caught `Exception` all answer
    "not player-placed", so every failure leaves the block destructible.
 */
module Provenance {
  import opened Ledger

  /** The reverse scan as a recursive definition: look at the newest entry,
      decide on it or recurse on the older ones. */
  function Scan(h: seq<Entry>): bool
    decreases |h|
  {
    if |h| == 0 then false
    else
      match h[|h| - 1]
      case NullParse => Scan(h[..|h| - 1])
      case ParseRaised => false
      case Parsed(r) =>
        if r.actionId == PlaceAction then IsPlayerName(r.player)
        else Scan(h[..|h| - 1])
  }

  /** Index k holds the deciding record of h: it is a placement and every
      newer entry is one the scan passes over. */
  ghost predicate DecidedAt(h: seq<Entry>, k: int)
  {
    && 0 <= k < |h|
    && IsPlacement(h[k])
    && forall j :: k < j < |h| ==> Skippable(h[j])
  }

  /** The deciding record of h sits at k and names a real player. */
  ghost predicate PlayerPlacedAt(h: seq<Entry>, k: int)
  {
    DecidedAt(h, k) && IsPlayerName(h[k].record.player)
  }

  /** The verdict for one block, including the checks made before the scan:
      a missing ledger handle, a failed or null lookup and an empty history
      all give false. */
  function Verdict(apiPresent: bool, lookup: Lookup): bool
  {
    if !apiPresent then false
    else
      match lookup
      case Raised => false
      case NullList => false
      case Entries(h) => if |h| == 0 then false else Scan(h)
  }

  /** The block's history, as the source walks it: from the last index down
      to the first, returning as soon as a placement record is met. */
  method IsPlayerPlaced(apiPresent: bool, lookup: Lookup) returns (placed: bool)
    ensures placed <==>
              apiPresent && lookup.Entries? &&
              exists k :: PlayerPlacedAt(lookup.history, k)
    ensures placed == Verdict(apiPresent, lookup)
  {
    if !apiPresent {
      return false;
    }
    if !lookup.Entries? || |lookup.history| == 0 {
      return false;
    }
    var h := lookup.history;
    ScanCharacterization(h);
    var i := |h| - 1;
    assert h[..i + 1] == h;
    while i >= 0
      invariant -1 <= i < |h|
      invariant Scan(h[..i + 1]) == Scan(h)
      decreases i + 1
    {
      var e := h[i];
      assert h[..i + 1][..i] == h[..i];
      if e.ParseRaised? {
        // the exception is caught and the block is not protected
        return false;
      }
      if e.Parsed? && e.record.actionId == PlaceAction {
        var player := e.record.player;
        return player.Some? && !StartsWith(player.value, SystemMarker);
      }
      i := i - 1;
    }
    return false;
  }

  /** Two decision points cannot coexist: a newer placement would have to be
      skippable. */
  lemma DecidedAtUnique(h: seq<Entry>, k: int, k': int)
    requires DecidedAt(h, k) && DecidedAt(h, k')
    ensures k == k'
  {
  }

  /** The recursive scan agrees with the index-based reading: it answers true
      exactly when the newest placement that only skippable entries follow
      names a real player. */
  lemma {:induction false} ScanCharacterization(h: seq<Entry>)
    ensures Scan(h) <==> exists k :: PlayerPlacedAt(h, k)
    decreases |h|
  {
    if |h| == 0 {
      return;
    }
    var n := |h| - 1;
    var p := h[..n];
    var last := h[n];
    if Skippable(last) {
      ScanCharacterization(p);
      assert Scan(h) == Scan(p);
      forall k | PlayerPlacedAt(h, k)
        ensures PlayerPlacedAt(p, k)
      {
        assert k != n;
        assert p[k] == h[k];
      }
      forall k | PlayerPlacedAt(p, k)
        ensures PlayerPlacedAt(h, k)
      {
        assert h[k] == p[k];
        forall j | k < j < |h|
          ensures Skippable(h[j])
        {
          if j < n {
            assert h[j] == p[j];
          }
        }
      }
    } else if last.ParseRaised? {
      forall k | 0 <= k < |h|
        ensures !PlayerPlacedAt(h, k)
      {
        if k < n {
          assert !Skippable(h[n]);
        }
      }
    } else {
      assert IsPlacement(last);
      assert Scan(h) == IsPlayerName(last.record.player);
      assert DecidedAt(h, n);
      forall k | 0 <= k < |h| && DecidedAt(h, k)
        ensures k == n
      {
        DecidedAtUnique(h, k, n);
      }
      if IsPlayerName(last.record.player) {
        assert PlayerPlacedAt(h, n);
      }
    }
  }

  /** The newest placement that only skippable entries follow fixes the
      answer by its player alone. */
  lemma {:induction false} NewestPlacementDecides(h: seq<Entry>, k: int)
    requires DecidedAt(h, k)
    ensures Scan(h) == IsPlayerName(h[k].record.player)
  {
    ScanCharacterization(h);
    if Scan(h) {
      var k' :| PlayerPlacedAt(h, k');
      DecidedAtUnique(h, k, k');
    } else {
      assert !PlayerPlacedAt(h, k);
    }
  }

  /** Entries older than the deciding placement do not matter: replacing
      them with any other entries, placements included, keeps the answer. */
  lemma OlderEntriesIrrelevant(h: seq<Entry>, k: int, older: seq<Entry>)
    requires DecidedAt(h, k)
    ensures Scan(older + h[k..]) == Scan(h)
  {
    var h' := older + h[k..];
    var k' := |older|;
    assert h'[k'] == h[k];
    forall j | k' < j < |h'|
      ensures Skippable(h'[j])
    {
      assert h'[j] == h[j - k' + k];
    }
    assert DecidedAt(h', k');
    NewestPlacementDecides(h, k);
    NewestPlacementDecides(h', k');
  }

  /** Appending null parses and non-placement records at the newest end of
      the history leaves the answer unchanged. */
  lemma {:induction false} SkippableSuffixIrrelevant(h: seq<Entry>, tail: seq<Entry>)
    requires forall j :: 0 <= j < |tail| ==> Skippable(tail[j])
    ensures Scan(h + tail) == Scan(h)
    decreases |tail|
  {
    if |tail| == 0 {
      assert h + tail == h;
    } else {
      var t := tail[..|tail| - 1];
      var ht := h + tail;
      assert ht[..|ht| - 1] == h + t;
      assert ht[|ht| - 1] == tail[|tail| - 1];
      assert Skippable(tail[|tail| - 1]);
      SkippableSuffixIrrelevant(h, t);
    }
  }

  /** A history without any placement record never counts as
      player-placed. */
  lemma {:induction false} NoPlacementNotPlaced(h: seq<Entry>)
    requires forall j :: 0 <= j < |h| ==> !IsPlacement(h[j])
    ensures !Scan(h)
  {
    ScanCharacterization(h);
    forall k | 0 <= k < |h|
      ensures !PlayerPlacedAt(h, k)
    {
      assert !IsPlacement(h[k]);
    }
  }

  /** A parse that throws before any placement is reached makes the answer
      false, even when an older entry is a player's placement. */
  lemma {:induction false} ParseFailureFailsOpen(h: seq<Entry>, j: int)
    requires 0 <= j < |h| && h[j].ParseRaised?
    requires forall i :: j < i < |h| ==> Skippable(h[i])
    ensures !Scan(h)
  {
    ScanCharacterization(h);
    forall k | 0 <= k < |h|
      ensures !PlayerPlacedAt(h, k)
    {
      if k < j {
        assert !Skippable(h[j]);
      } else if k > j {
        assert Skippable(h[k]) && !IsPlacement(h[k]);
      }
    }
  }

  /** Every failure path answers false: no ledger handle, a lookup that
      throws or returns null, and an empty history. */
  lemma FailOpen(apiPresent: bool, lookup: Lookup)
    ensures !Verdict(false, lookup)
    ensures !Verdict(apiPresent, Raised)
    ensures !Verdict(apiPresent, NullList)
    ensures !Verdict(apiPresent, Entries([]))
  {
  }

  /** With a working ledger and a non-empty history, the verdict is the
      index-based reading of the history. */
  lemma VerdictOfHistory(h: seq<Entry>)
    requires |h| > 0
    ensures Verdict(true, Entries(h)) <==> exists k :: PlayerPlacedAt(h, k)
  {
    ScanCharacterization(h);
  }
}
