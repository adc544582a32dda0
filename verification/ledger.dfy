/** The audit ledger's answer for one block, as the protector sees it.

    The ledger (CoreProtect) is a foreign library: its block lookup and its
    record parser are not modelled, only what they hand back. A lookup either
    raises, returns null, or returns a list of raw entries; parsing one raw
    entry either yields a record, yields null, or raises.

    The protector reads the list as if the last index held the most recent
    change (ExplosionProtector.java:91). "Newest" and "older" below mean
    "higher index" and "lower index"; every property is stated over indices,
    so none depends on the order the ledger really uses.
 */
module Ledger {

  datatype Option<+T> = None | Some(value: T)

  /** The action id the ledger uses for a block placement. */
  const PlaceAction: int := 1

  /** The prefix that marks a non-player (plugin or system) actor. */
  const SystemMarker: string := "#"

  /** One parsed history record: its action id and the acting player, which
      may be null. */
  datatype Record = Record(actionId: int, player: Option<string>)

  /** The outcome of reading one raw history entry. A `getPlayer()` that
      throws after the action id was read as 1 is caught and gives false,
      exactly as a null player does, so it is `Parsed(Record(1, None))`. */
  datatype Entry =
    | Parsed(record: Record)   // the parser returned a record
    | NullParse                // the parser returned null
    | ParseRaised              // parseResult or getActionId threw an Exception

  /** The outcome of asking the ledger for a block's history. */
  datatype Lookup =
    | Raised                       // the lookup threw an Exception
    | NullList                     // the lookup returned null
    | Entries(history: seq<Entry>) // the last index is read as the newest

  /** Java's `String.startsWith`. */
  predicate StartsWith(s: string, prefix: string)
  {
    |prefix| <= |s| && s[..|prefix|] == prefix
  }

  /** A record is a placement when its action id is the placement id. */
  predicate IsPlacement(e: Entry)
  {
    e.Parsed? && e.record.actionId == PlaceAction
  }

  /** An entry the reverse scan passes over without deciding: a null parse or
      a record of some other action. */
  predicate Skippable(e: Entry)
  {
    e.NullParse? || (e.Parsed? && e.record.actionId != PlaceAction)
  }

  /** The acting player of a placement counts as a real player when it is
      present and does not carry the system marker. */
  predicate IsPlayerName(player: Option<string>)
  {
    player.Some? && !StartsWith(player.value, SystemMarker)
  }

  /** The marker test only looks at the first character: a name counts as a
      player exactly when it is empty or does not begin with '#'. */
  lemma PlayerNameFirstChar(player: Option<string>)
    ensures IsPlayerName(player) <==>
              player.Some? && (|player.value| == 0 || player.value[0] != '#')
  {
  }
}
