# ExplosionProtector: the placement-provenance filter

ExplosionProtector is a Bukkit plugin. It stops explosions from destroying
blocks that players placed. Whenever an explosion computes the list of
blocks it will destroy, the plugin removes every block that should be
protected from that list. TNT is always left to explode. Any other block is
protected when the CoreProtect audit ledger says a player placed it.

The ledger's history for a block is walked from its last index down to its
first; the code reads the last index as the most recent change
(ExplosionProtector.java:91). Entries the parser returns as null are skipped, and so are records
of other actions. The first placement record (action id 1) decides. The
block counts as player-placed exactly when that record's player is non-null
and does not start with `#`, the marker of plugin and system actors. A
missing ledger handle, a null or empty lookup, a history with no placement,
and any `Exception` caught by the check all give "not player-placed".
Such failures therefore leave the block destructible.

The model has three modules:

- `Ledger` (`ledger.dfy`) holds what the ledger hands back. A lookup either
  raises, returns null, or returns a list of entries. Each entry parses to
  a record (action id and nullable player), to null, or raises. The model
  reads the last index as the newest entry, as the code does; every
  property is stated over indices, so none depends on the ledger's real
  order. It also holds the `#` marker test.
- `Provenance` (`provenance.dfy`) holds the decision. `Scan` is the recursive
  definition that works from the last index down. `DecidedAt` / `PlayerPlacedAt` are an independent
  index-based reading of the same rule. `IsPlayerPlaced` is the source's
  downward loop, proved equal to both.
- `ExplosionFilter` (`explosion_filter.dfy`) holds the TNT exemption, the
  per-block decision, and the order-preserving removal from the explosion's
  list.

The ledger's answers are inputs. The lookup and the parser belong to a
foreign library and are not modelled; the model only sees their results.
The plugin's handle to the ledger API is a boolean, `apiPresent`, which is
false when the handle is null.

## Model

| member | source | states |
|---|---|---|
| Provenance.IsPlayerPlaced | src/main/java/org/SlidrusForeal/explosionProtector/ExplosionProtector.java:84-109 | The downward scan answers true iff the API is present, the lookup returned a list, and some index holds a placement whose player is a real player with only null parses and non-placement records after it; the answer equals the recursive definition |
| Provenance.ScanCharacterization | src/main/java/org/SlidrusForeal/explosionProtector/ExplosionProtector.java:92-101 | The newest-first recursive scan is true exactly when the deciding placement (the highest index placement that only skippable entries follow) names a real player |
| Provenance.NewestPlacementDecides | src/main/java/org/SlidrusForeal/explosionProtector/ExplosionProtector.java:97-100 | When index k holds the deciding placement, the verdict is exactly whether its player is non-null and lacks the `#` prefix |
| Provenance.OlderEntriesIrrelevant | src/main/java/org/SlidrusForeal/explosionProtector/ExplosionProtector.java:92-101 | Replacing every entry older than the deciding placement by any other entries, placements included, does not change the verdict |
| Provenance.SkippableSuffixIrrelevant | src/main/java/org/SlidrusForeal/explosionProtector/ExplosionProtector.java:93-97 | Appending null parses and non-placement records at the newest end of a history leaves the verdict unchanged |
| Provenance.NoPlacementNotPlaced | src/main/java/org/SlidrusForeal/explosionProtector/ExplosionProtector.java:102-108 | A history in which no entry is a placement record is never player-placed |
| Provenance.ParseFailureFailsOpen | src/main/java/org/SlidrusForeal/explosionProtector/ExplosionProtector.java:92-108 | A parse that throws before any placement is reached makes the verdict false, even when an older entry is a player's placement |
| Provenance.FailOpen | src/main/java/org/SlidrusForeal/explosionProtector/ExplosionProtector.java:85-89 | A missing API handle, a lookup that throws, a null lookup and an empty history all give false |
| Provenance.VerdictOfHistory | src/main/java/org/SlidrusForeal/explosionProtector/ExplosionProtector.java:84-109 | With the API present and a non-empty history, the block verdict is true iff some index is a deciding player placement |
| Provenance.DecidedAtUnique | src/main/java/org/SlidrusForeal/explosionProtector/ExplosionProtector.java:92-101 | At most one index of a history can be the deciding placement, since the scan stops at the first placement it meets |
| Ledger.PlayerNameFirstChar | src/main/java/org/SlidrusForeal/explosionProtector/ExplosionProtector.java:98-100 | A player counts as real iff the name is non-null and is empty or its first character is not `#` |
| ExplosionFilter.ShouldProtectBlock | src/main/java/org/SlidrusForeal/explosionProtector/ExplosionProtector.java:74-79 | TNT is never protected; any other block is protected iff the API is present and its history has a deciding player placement |
| ExplosionFilter.ProtectionRule | src/main/java/org/SlidrusForeal/explosionProtector/ExplosionProtector.java:74-79 | TNT is never protected whatever its history; for any other block protection equals the placement verdict, read against the history |
| ExplosionFilter.ProtectPlacedBlocks | src/main/java/org/SlidrusForeal/explosionProtector/ExplosionProtector.java:65-69 | A null list stays null; otherwise the result holds exactly the listed blocks that are not protected, its length is the original length minus the protected count, and it is the order-preserving filter |
| ExplosionFilter.Unprotected | src/main/java/org/SlidrusForeal/explosionProtector/ExplosionProtector.java:68 | The blocks left in the list plus the protected ones account for the whole list |
| ExplosionFilter.UnprotectedIndices | src/main/java/org/SlidrusForeal/explosionProtector/ExplosionProtector.java:68 | There is one position per block left in the list, each a valid position of the original list, in strictly increasing order |
| ExplosionFilter.UnprotectedSelectsIndices | src/main/java/org/SlidrusForeal/explosionProtector/ExplosionProtector.java:68 | The filtered list is the original list read at those increasing positions, so relative order is preserved |
| ExplosionFilter.UnprotectedIndicesExact | src/main/java/org/SlidrusForeal/explosionProtector/ExplosionProtector.java:68 | A position is selected iff the block there is not protected |
| ExplosionFilter.UnprotectedMembers | src/main/java/org/SlidrusForeal/explosionProtector/ExplosionProtector.java:68 | A block is in the filtered list iff it is in the original list and not protected |
| ExplosionFilter.UnprotectedConcat | src/main/java/org/SlidrusForeal/explosionProtector/ExplosionProtector.java:68 | Filtering a concatenation is the concatenation of the filtered parts |
| ExplosionFilter.UnprotectedIdempotent | src/main/java/org/SlidrusForeal/explosionProtector/ExplosionProtector.java:68 | Filtering an already filtered list changes nothing |
| ExplosionFilter.NoneProtectedKeepsAll | src/main/java/org/SlidrusForeal/explosionProtector/ExplosionProtector.java:65-69 | When no block of the list is protected, the list is left as it was |
| ExplosionFilter.NothingPlacedNothingProtected | src/main/java/org/SlidrusForeal/explosionProtector/ExplosionProtector.java:65-79 | A list of TNT and blocks whose histories hold no placement, or whose lookup failed, is left whole |

## Left out

- Plugin start-up (`onEnable`, `fetchCoreProtectAPI` and the check that the
  ledger API is enabled and at version 10 or later, ExplosionProtector.java:26-47):
  plugin-manager plumbing. Its only effect on the core is whether the API
  handle is null, which is the `apiPresent` parameter.
- The two event handlers (ExplosionProtector.java:52-60): both pass the
  event's block list unchanged to the filter, so the filter is modelled
  directly. The `removeIf` is in place; the model returns the new list.
- CoreProtect's `blockLookup` and `parseResult`: a foreign library. Their
  results (a list, null, or an exception; a record, null, or an exception)
  are the inputs of the model.
- Logging of the caught exception (ExplosionProtector.java:105): it has no
  effect on the verdict.
- `ExplosionProtectorCommand.java`: chat command glue. It calls
  `setProtectionEnabled`, `getPreventedBlocksCount`,
  `getCoreProtectQueriesCount`, `getCacheStatus` and `clearCache`, none of
  which is defined in ExplosionProtector.java. So there is no enable flag,
  counter or cache in the code to model.
- Java `Error`s (as opposed to `Exception`s) raised by the ledger: the
  catch at ExplosionProtector.java:104 does not handle them, so they escape
  `removeIf` (68) and abort the filter. The model has no such outcome.
- Concurrency: the server's event thread model.

## Notes on the code

- Both event handlers (ExplosionProtector.java:52-60) apply one rule: only
  `Material.TNT` is exempt (76); every other block goes to the ledger check.
- The try/catch (87, 104) wraps the whole scan, so a parser exception at
  index i gives false even when a lower index holds a player's placement.
  The model keeps this as the `ParseRaised` entry (see
  `Provenance.ParseFailureFailsOpen`). A `getPlayer()` that throws after the
  action id was read as 1 gives false too, the same as a null player.
- Java's `"".startsWith("#")` is false, so a placement with an empty player
  name counts as player-placed.
