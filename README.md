# DropStop item-drop gatekeeper, modelled in Dafny

DropStop is a Bukkit/Paper server plugin that stops players from dropping
items. When a player drops an item, the server raises a `PlayerDropItemEvent`.
The plugin's `onPlayerItemDrop` handler then does three things:

- It decides from three configuration values whether the drop is denied:
  `disable-item-drops`, `item-allowlisting` and `item-allowlist`.
- It cancels a denied drop.
- If `warn-player-on-drop` is set, it may send the player a warning in chat.
  The warning is rate-limited per player name through the
  `playerMessageTimestamps` table. The text comes from the `warning-message`
  template: `&` becomes the section sign and `%player%` becomes the player's name.

The model has five modules:

- `JavaTypes` (`java_types.dfy`): Java's nullable references, `int` and
  `long`. It also has `Wrap64`, the 64-bit wrap-around of the `now - last`
  subtraction on `long`.
- `ChatFormat` (`chat_format.dfy`): `formatChatMessage`, written as literal
  left-to-right replacement. It is tied to an independent description of the
  result: the template is cut at each leftmost placeholder that does not
  overlap an earlier cut, and the pieces are glued back together with the name.
- `Gatekeeper` (`gatekeeper.dfy`): the pure rules of `DropStop.java` and the
  plugin object.
  - The rules are functions: the decision (`Decide`), the two validators, one
    warning attempt (`WarnStep`) and one whole drop event (`DropStep`).
  - The plugin object is the class `DropStop`. Its `playerMessageTimestamps`
    map is updated in place.
  - The event is the class `DropEvent`, with a mutable `cancelled` flag.
  - The drop-handling methods (`OnPlayerItemDrop`, `CancelItemDrop`,
    `SendWarningMessage`) are proved equal to the rule functions they
    implement. The lemmas then state the plugin's promises about those
    functions.
- `RateLimit` (`rate_limit.dfy`): runs of warning attempts by one player over
  time.
- `Scenarios` (`scenarios.dfy`): the plugin object driven through the drop
  sequences that its test suite performs.

How the model stands in for the host:

- The configuration is an immutable `Config` record, passed to each handler
  call. It stands for `getConfig()` at the moment of the event.
- `getBoolean(key, false)` on an unset or non-boolean key gives `false`. The
  model writes such a key as `None`.
- `System.nanoTime()` becomes a `now` parameter.
- The player's chat (`p.sendMessage`) becomes the returned `Reply`.
- The two exceptions the code throws become `Reply.Thrown(error)`. On this
  path the rest of the call is skipped, exactly as in the Java code.

Two behaviours of the code worth knowing:

- The handler checks only the player, and only on a denied drop
  (DropStop.java:123-125), so an allowed drop without a player passes without
  error. The item is never checked by the plugin.
- An empty or missing template is noticed only when the cooldown is over
  (DropStop.java:147-148); inside the window no error is raised.

## Model

| member | source | states |
|---|---|---|
| `Gatekeeper.Decide` | src/main/java/com/altiran/dropstop/DropStop.java:111-121 | With `disable-item-drops` false or unset, the drop is allowed. With it true and `item-allowlisting` false or unset, every drop is denied. With both true, a drop is denied exactly when its item type is not in `item-allowlist`. |
| `Gatekeeper.AllowlistExtremes` | src/main/java/com/altiran/dropstop/DropStop.java:113-116 | In allowlist mode, an empty list denies every item type, and a list holding every item type allows them all. |
| `Gatekeeper.AllowlistMonotone` | src/main/java/com/altiran/dropstop/DropStop.java:113-116 | Adding entries to the allowlist never turns an allowed drop into a denied one. |
| `Gatekeeper.ValidatePlayerObject` | src/main/java/com/altiran/dropstop/DropStop.java:165-170 | A missing player gives the invalid-event error; a present player is returned unchanged. |
| `Gatekeeper.ValidateWarningMessage` | src/main/java/com/altiran/dropstop/DropStop.java:157-163 | It fails, with the invalid-message error, exactly when `warning-message` is missing or empty. Otherwise it returns the template unchanged. |
| `Gatekeeper.WarnStep` | src/main/java/com/altiran/dropstop/DropStop.java:141-151 | One warning attempt adds at most the player's key. The table changes only when a message is sent, and then the player's entry is `now`. The only exception it throws is the invalid-message error. |
| `Gatekeeper.DropStep` | src/main/java/com/altiran/dropstop/DropStop.java:110-130 | One drop event never clears the cancelled flag, and sets it only for a denied drop that has a player. The table changes only when a message is sent, and then the event is cancelled. When it throws, the error is the invalid-event error exactly when the player is missing, and in that case the flag is left as it was. |
| `Gatekeeper.CooldownRule` | src/main/java/com/altiran/dropstop/DropStop.java:141-151 | A warning is sent exactly when the player has no timestamp or `now - last >= timeout*10^9 + 5*10^8`, and the template is valid. Only a sent warning records `now`; a suppressed attempt leaves the table unchanged. The error is thrown exactly when the cooldown is over and the template is invalid. |
| `Gatekeeper.OnlyOwnEntryChanges` | src/main/java/com/altiran/dropstop/DropStop.java:145-149 | A warning attempt adds or changes at most the current player's entry. Every other player's timestamp is kept, and no key is removed. |
| `Gatekeeper.SentTextIsFormattedTemplate` | src/main/java/com/altiran/dropstop/DropStop.java:148 | The text sent is the configured template, formatted with the player's name. |
| `Gatekeeper.AllowedDropHasNoEffect` | src/main/java/com/altiran/dropstop/DropStop.java:111-121 | An allowed drop leaves the event's cancelled flag as it was. It sends nothing and does not touch the table. |
| `Gatekeeper.MissingPlayerNotCancelled` | src/main/java/com/altiran/dropstop/DropStop.java:123-125 | A denied drop without a player throws before `setCancelled`. The event stays as it was, and the table is unchanged. |
| `Gatekeeper.DeniedDropCancelled` | src/main/java/com/altiran/dropstop/DropStop.java:123-130 | A denied drop with a player is always cancelled. With `warn-player-on-drop` off, nothing else happens. |
| `Gatekeeper.EmptyTemplateErrorOrdering` | src/main/java/com/altiran/dropstop/DropStop.java:124-163 | With warnings on and an empty or missing template, a denied drop is cancelled first. It throws exactly when the cooldown is over, sends nothing and records nothing. Inside the window it raises no error. |
| `Gatekeeper.DropStop.constructor` | src/main/java/com/altiran/dropstop/DropStop.java:24-37 | A new plugin has an empty timestamp table and the given test-environment flag. |
| `Gatekeeper.DropStop.OnPlayerItemDrop` | src/main/java/com/altiran/dropstop/DropStop.java:110-121 | The reply, the event's cancelled flag and the new table are exactly what `DropStep` gives for the old table. |
| `Gatekeeper.DropStop.CancelItemDrop` | src/main/java/com/altiran/dropstop/DropStop.java:123-130 | Without a player, it throws and changes nothing. With a player, it cancels the event. It then leaves the table unchanged (warnings off), or takes the reply and table of `WarnStep` (warnings on). |
| `Gatekeeper.DropStop.ResetPlayerMessageTimestamps` | src/main/java/com/altiran/dropstop/DropStop.java:135-139 | In a unit-test environment the table becomes empty; otherwise it is unchanged. |
| `Gatekeeper.DropStop.SendWarningMessage` | src/main/java/com/altiran/dropstop/DropStop.java:141-151 | The reply and the new table are exactly what `WarnStep` gives for the old table. Every other player's entry is kept. |
| `JavaTypes.Wrap64` | src/main/java/com/altiran/dropstop/DropStop.java:147 | The `long` result of `now - lastMessageTime` differs from the exact difference by a multiple of 2^64. When the exact difference fits in a `long`, the two are equal. |
| `ChatFormat.FormatChatMessage` | src/main/java/com/altiran/dropstop/DropStop.java:153-155 | The result is the colour-converted template cut at its `%player%` placeholders, with the pieces glued back together by the player's name. |
| `ChatFormat.ColourMarkersReplaced` | src/main/java/com/altiran/dropstop/DropStop.java:154 | The `&` pass keeps the length. It turns each `&` into the section sign (char 167) and leaves every other character where it was. |
| `ChatFormat.JoinSplit` | src/main/java/com/altiran/dropstop/DropStop.java:154 | Gluing the placeholder-free pieces back together with the placeholder gives the original text. |
| `ChatFormat.ReplaceAllJoinsPieces` | src/main/java/com/altiran/dropstop/DropStop.java:154 | The replacement equals the same pieces glued together with the replacement text. |
| `ChatFormat.FirstCutIsLeftmost` | src/main/java/com/altiran/dropstop/DropStop.java:154 | The first cut is at the leftmost occurrence: no occurrence starts inside the first piece. If there is a cut, the pattern follows the first piece, and the remaining pieces are the split of the text after that occurrence. |
| `ChatFormat.PiecesAvoidPattern` | src/main/java/com/altiran/dropstop/DropStop.java:154 | No piece contains the whole pattern. An occurrence that overlaps one already cut is not replaced, in Java or in the model. |
| `ChatFormat.ReplaceAllWithoutPattern` | src/main/java/com/altiran/dropstop/DropStop.java:154 | A text without the pattern is returned unchanged. |
| `ChatFormat.FormatChatMessageMeaning` | src/main/java/com/altiran/dropstop/DropStop.java:153-155 | `formatChatMessage(str, p)` converts the colour markers first. It then cuts the result into placeholder-free pieces, each cut at the leftmost `%player%` not overlapping an earlier cut, and glues them back with `p`. Gluing them with `%player%` instead gives back the colour-converted template, so no other character changes. |
| `ChatFormat.OverlappingPlaceholder` | src/main/java/com/altiran/dropstop/DropStop.java:154 | In `%player%player%` only the first placeholder is replaced, and the tail `player%` is kept, as Java's left-to-right `replaceAll` does. |
| `ChatFormat.PlainTemplateUnchanged` | src/main/java/com/altiran/dropstop/DropStop.java:153-155 | A template with neither `&` nor `%player%` is sent as written. |
| `RateLimit.InOrderDifference` | src/main/java/com/altiran/dropstop/DropStop.java:147 | For two readings taken in order, a `long` difference that reaches the window means the readings really are at least a window apart, even when the subtraction wraps. |
| `RateLimit.WarningsSpacedByWindow` | src/main/java/com/altiran/dropstop/DropStop.java:141-151 | Take one player's attempts at non-decreasing `long` clock readings. Any two warnings sent are at least `timeout*10^9 + 5*10^8` ns apart. If the timestamp already on record is no later than the first reading, the first warning is at least that long after it. |
| `RateLimit.SuppressedAttemptsKeepTable` | src/main/java/com/altiran/dropstop/DropStop.java:145-150 | Suppose every attempt in a run falls inside the window of the recorded timestamp. Then nothing is sent, and the table ends exactly as it began, so suppressed attempts never extend the window. |
| `RateLimit.CooldownScenario` | src/test/java/com/altiran/dropstop/TestPlugin.java:168-200 | With a five-second timeout, attempts at `t0`, `t0+2s` and `t0+6.5s` send a warning, nothing, and a warning again. |
| `Scenarios.DropsAroundTimeout` | src/test/java/com/altiran/dropstop/TestPlugin.java:168-200 | On the plugin object, three drops (first, inside the window, then one second past the timeout) are all cancelled. They reply with the formatted warning, nothing, and the warning again. |
| `Scenarios.AllowlistedStone` | src/test/java/com/altiran/dropstop/TestPlugin.java:130-163 | With only `STONE` allowlisted, a `STONE` drop is left uncancelled and a `WOOD` drop is cancelled. |
| `Scenarios.ResetBetweenDrops` | src/test/java/com/altiran/dropstop/TestPlugin.java:272-292 | In a unit-test environment, resetting the table after a warned drop lets the next drop at the same instant warn again. |

## Left out

- Plugin lifecycle (`onEnable`, `onDisable`, `isDisabled`) and the static `instance` with its accessors and `logger()`: host-runtime glue with no bearing on the drop decision.
- Detection of the unit-test environment by inspecting the class loader: a reflective foreign call. `unitTestEnv` is a constructor parameter instead.
- PaperLib server-flavour detection, event registration and configuration loading (`saveDefaultConfig`, `getConfig`): host collaborators. The configuration arrives as an immutable record.
- Default values from the bundled configuration file: `warn-player-on-drop`, `warning-timeout`, `item-allowlist` and `warning-message` are read without an explicit default, so the host fills an unset key from its bundled defaults. The model takes the value the host resolved: an empty list or `None` only when it resolves no value.
- `System.nanoTime()`: the clock is a `now` parameter.
- Delivery of the chat message and logging: the message is returned as `Reply.Message`. How the host's event bus reports a thrown exception is not modelled.
- A null item on the event: Bukkit itself throws while building the event, before the plugin is called, so the core never sees it.
- Concurrent dispatch: the model assumes the host's single-threaded event dispatch, so each call runs to completion on the table.
- `NumberUtils.java` and `ProcessUtils.java`: floating-point formatting and wall-clock reading used only for the startup log line. These files are not part of this model.
- ChatFormat.FormatChatMessage: the player name is inserted literally. Java's `replaceAll` would interpret `$` and `\` in the replacement string, but Minecraft player names (letters, digits and `_`) never contain them.
