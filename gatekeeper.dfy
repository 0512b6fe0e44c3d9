/** The item-drop gatekeeper of `DropStop.java`: the allow/deny decision, the
    cancellation of a denied drop, and the rate-limited warning sent to the
    player. The pure rules come first; the plugin object, whose timestamp
    table is updated in place, comes after them and is proved against them. */
module Gatekeeper {
  import opened JavaTypes
  import opened ChatFormat

  /** The configuration values the core reads, as the host has loaded them.
      A boolean read with `getBoolean(key, false)` is `None` when the key is
      unset or not a boolean. The other four keys are read without an explicit
      default, so the host may fill them from its bundled defaults:
      `item-allowlist` is the empty list and `warning-message` is `None` when
      the host resolves no value. */
  datatype Config = Config(
    disableItemDrops: Option<bool>,
    itemAllowlisting: Option<bool>,
    itemAllowlist: seq<string>,
    warnPlayerOnDrop: bool,
    warningMessage: Option<string>,
    warningTimeout: Int32)

  /** `getBoolean(key, false)`: an unset flag reads as false. */
  predicate Flag(b: Option<bool>) {
    b == Some(true)
  }

  /** A player, known to the core by name only. */
  datatype Player = Player(name: string)

  /** The two exceptions the core throws. */
  datatype Error =
    | InvalidEvent          // validatePlayerObject: the event has no player
    | InvalidWarningMessage // validateWarningMessage: empty or missing template

  /** What one call does towards the player: nothing, one chat message, or an
      exception that aborts the rest of the call. */
  datatype Reply = NoMessage | Message(text: string) | Thrown(error: Error)

  datatype Verdict = Allow | Deny

  /** The allow/deny rule of `onPlayerItemDrop`. */
  function Decide(cfg: Config, itemType: string): (v: Verdict)
    ensures !Flag(cfg.disableItemDrops) ==> v == Allow
    ensures Flag(cfg.disableItemDrops) && !Flag(cfg.itemAllowlisting) ==> v == Deny
    ensures Flag(cfg.disableItemDrops) && Flag(cfg.itemAllowlisting) ==>
      (v == Deny <==> itemType !in cfg.itemAllowlist)
  {
    if !Flag(cfg.disableItemDrops) then Allow
    else if Flag(cfg.itemAllowlisting) && itemType in cfg.itemAllowlist then Allow
    else Deny
  }

  /** `validatePlayerObject`: a missing player is an invalid event. */
  function ValidatePlayerObject(player: Option<Player>): (r: Result<Player>)
    ensures r.Ok? <==> player.Some?
    ensures r.Ok? ==> r.value == player.value
    ensures r.Err? ==> r.error == InvalidEvent
  {
    match player
    case None => Err(InvalidEvent)
    case Some(p) => Ok(p)
  }

  /** `validateWarningMessage`: a missing or empty template is a configuration error. */
  function ValidateWarningMessage(cfg: Config): (r: Result<string>)
    ensures r.Ok? <==> cfg.warningMessage.Some? && cfg.warningMessage.value != []
    ensures r.Ok? ==> r.value == cfg.warningMessage.value
    ensures r.Err? ==> r.error == InvalidWarningMessage
  {
    if cfg.warningMessage.None? || cfg.warningMessage.value == [] then Err(InvalidWarningMessage)
    else Ok(cfg.warningMessage.value)
  }

  datatype Result<T> = Ok(value: T) | Err(error: Error)

  const NanosPerSecond: int := 1_000_000_000
  /** The half-second guard added to the configured timeout. */
  const BufferNanos: int := 500_000_000

  /** `timeout + buffer` in nanoseconds. Neither the `long` product of the
      `int` timeout nor the sum can overflow, so no wrap-around is applied. */
  function Window(cfg: Config): Int64 {
    cfg.warningTimeout * NanosPerSecond + BufferNanos
  }

  /** The cooldown of `name` is over at `now`: no message was ever recorded,
      or the `long` difference `now - last` reached the window. */
  predicate CooldownOver(cfg: Config, table: map<string, Int64>, name: string, now: Int64) {
    name !in table || Wrap64(now as int - table[name]) >= Window(cfg)
  }

  /** What one `sendWarningMessage` call replies and leaves in the table. */
  datatype Step = Step(reply: Reply, table: map<string, Int64>)

  /** `sendWarningMessage(p)` at time `now`: when the cooldown is over the
      template is validated, formatted and sent, and `now` is recorded for the
      player; otherwise nothing happens. */
  function WarnStep(cfg: Config, table: map<string, Int64>, name: string, now: Int64): (s: Step)
    ensures s.table.Keys <= table.Keys + {name}
    ensures s.table != table ==> s.reply.Message?
    ensures s.reply.Message? ==> name in s.table && s.table[name] == now
    ensures s.reply.Thrown? ==> s.reply.error == InvalidWarningMessage
  {
    if CooldownOver(cfg, table, name, now) then
      match ValidateWarningMessage(cfg)
      case Err(e) => Step(Thrown(e), table)
      case Ok(msg) => Step(Message(FormatChatMessage(msg, name)), table[name := now])
    else Step(NoMessage, table)
  }

  /** What one drop event leaves behind: the reply, the event's cancelled
      flag and the timestamp table. */
  datatype Outcome = Outcome(reply: Reply, cancelled: bool, table: map<string, Int64>)

  /** `onPlayerItemDrop` followed, on a denied drop, by `cancelItemDrop`. */
  function DropStep(cfg: Config, table: map<string, Int64>, player: Option<Player>,
                    itemType: string, cancelled: bool, now: Int64): (o: Outcome)
    ensures cancelled ==> o.cancelled
    ensures o.cancelled != cancelled ==> Decide(cfg, itemType) == Deny && player.Some?
    ensures o.table != table ==> o.reply.Message? && o.cancelled
    ensures o.reply.Thrown? ==>
      (o.reply.error == InvalidEvent <==> player.None?) &&
      (o.reply.error == InvalidEvent ==> o.cancelled == cancelled)
  {
    if Decide(cfg, itemType) == Allow then Outcome(NoMessage, cancelled, table)
    else match ValidatePlayerObject(player)
      case Err(e) => Outcome(Thrown(e), cancelled, table)
      case Ok(p) =>
        if !cfg.warnPlayerOnDrop then Outcome(NoMessage, true, table)
        else
          var s := WarnStep(cfg, table, p.name, now);
          Outcome(s.reply, true, s.table)
  }

  // ---- Properties of the rules ----

  /** With an empty allowlist every drop is denied; with one that lists every
      item type, every drop is allowed. */
  lemma AllowlistExtremes(cfg: Config, items: set<string>)
    requires Flag(cfg.disableItemDrops) && Flag(cfg.itemAllowlisting)
    ensures cfg.itemAllowlist == [] ==> forall t :: Decide(cfg, t) == Deny
    ensures (forall t :: t in items ==> t in cfg.itemAllowlist) ==>
      forall t :: t in items ==> Decide(cfg, t) == Allow
  {
  }

  /** Growing the allowlist only ever turns a denial into an allowance. */
  lemma AllowlistMonotone(cfg: Config, extra: seq<string>, itemType: string)
    ensures Decide(cfg, itemType) == Allow ==>
      Decide(cfg.(itemAllowlist := cfg.itemAllowlist + extra), itemType) == Allow
  {
  }

  /** The cooldown rule: a message goes out exactly when the cooldown is over
      and the template is valid; then, and only then, `now` is recorded. A
      suppressed attempt leaves the table as it was, so it does not extend
      the window. */
  lemma CooldownRule(cfg: Config, table: map<string, Int64>, name: string, now: Int64)
    ensures var s := WarnStep(cfg, table, name, now);
      && (s.reply.Message? <==> CooldownOver(cfg, table, name, now) && ValidateWarningMessage(cfg).Ok?)
      && (s.reply.Message? ==> s.table == table[name := now])
      && (!s.reply.Message? ==> s.table == table)
      && (s.reply.Thrown? <==> CooldownOver(cfg, table, name, now) && ValidateWarningMessage(cfg).Err?)
  {
  }

  /** One warning touches only the sender's entry: every other player's
      timestamp is kept, and no other key appears or disappears. */
  lemma OnlyOwnEntryChanges(cfg: Config, table: map<string, Int64>, name: string, now: Int64)
    ensures var t := WarnStep(cfg, table, name, now).table;
      && t.Keys <= table.Keys + {name}
      && table.Keys <= t.Keys
      && forall other :: other != name && other in table ==> t[other] == table[other]
  {
  }

  /** The message sent is the configured template, formatted for the player. */
  lemma SentTextIsFormattedTemplate(cfg: Config, table: map<string, Int64>, name: string, now: Int64)
    requires WarnStep(cfg, table, name, now).reply.Message?
    ensures cfg.warningMessage.Some?
    ensures WarnStep(cfg, table, name, now).reply.text == FormatChatMessage(cfg.warningMessage.value, name)
  {
  }

  /** An allowed drop is left alone: not cancelled by the core, no message,
      no table change. This covers `disable-item-drops` false or unset. */
  lemma AllowedDropHasNoEffect(cfg: Config, table: map<string, Int64>, player: Option<Player>,
                               itemType: string, cancelled: bool, now: Int64)
    requires !Flag(cfg.disableItemDrops) ||
             (Flag(cfg.itemAllowlisting) && itemType in cfg.itemAllowlist)
    ensures DropStep(cfg, table, player, itemType, cancelled, now) == Outcome(NoMessage, cancelled, table)
  {
  }

  /** A denied drop without a player fails before the event is cancelled. */
  lemma MissingPlayerNotCancelled(cfg: Config, table: map<string, Int64>, itemType: string,
                                  cancelled: bool, now: Int64)
    requires Decide(cfg, itemType) == Deny
    ensures DropStep(cfg, table, None, itemType, cancelled, now) == Outcome(Thrown(InvalidEvent), cancelled, table)
  {
  }

  /** A denied drop with a player is always cancelled; with warnings off
      nothing else happens. */
  lemma DeniedDropCancelled(cfg: Config, table: map<string, Int64>, p: Player, itemType: string,
                            cancelled: bool, now: Int64)
    requires Decide(cfg, itemType) == Deny
    ensures DropStep(cfg, table, Some(p), itemType, cancelled, now).cancelled
    ensures !cfg.warnPlayerOnDrop ==>
      DropStep(cfg, table, Some(p), itemType, cancelled, now) == Outcome(NoMessage, true, table)
  {
  }

  /** An empty or missing template is only noticed once the cooldown is over:
      then the call throws after the event has been cancelled, sends nothing
      and records nothing; inside the window the template is never looked at. */
  lemma EmptyTemplateErrorOrdering(cfg: Config, table: map<string, Int64>, p: Player,
                                   itemType: string, cancelled: bool, now: Int64)
    requires Decide(cfg, itemType) == Deny && cfg.warnPlayerOnDrop
    requires cfg.warningMessage.None? || cfg.warningMessage.value == []
    ensures var o := DropStep(cfg, table, Some(p), itemType, cancelled, now);
      && o.cancelled
      && o.table == table
      && (o.reply == Thrown(InvalidWarningMessage) <==> CooldownOver(cfg, table, p.name, now))
      && (!CooldownOver(cfg, table, p.name, now) ==> o.reply == NoMessage)
  {
  }

  // ---- The plugin object ----

  /** A `PlayerDropItemEvent`: who dropped what, and whether the drop is cancelled. */
  class DropEvent {
    const player: Option<Player>
    const itemType: string
    var cancelled: bool

    constructor (player: Option<Player>, itemType: string)
      ensures this.player == player && this.itemType == itemType && !cancelled
    {
      this.player := player;
      this.itemType := itemType;
      cancelled := false;
    }
  }

  /** The plugin: its timestamp table of the last warning sent per player name. */
  class DropStop {
    const unitTestEnv: bool
    var playerMessageTimestamps: map<string, Int64>

    constructor (unitTestEnv: bool)
      ensures this.unitTestEnv == unitTestEnv && playerMessageTimestamps == map[]
    {
      this.unitTestEnv := unitTestEnv;
      playerMessageTimestamps := map[];
    }

    /** `onPlayerItemDrop(e)`, with `now` standing for `System.nanoTime()`. */
    method OnPlayerItemDrop(cfg: Config, e: DropEvent, now: Int64) returns (reply: Reply)
      modifies this`playerMessageTimestamps, e`cancelled
      ensures Outcome(reply, e.cancelled, playerMessageTimestamps) ==
        DropStep(cfg, old(playerMessageTimestamps), e.player, e.itemType, old(e.cancelled), now)
    {
      reply := NoMessage;
      if Flag(cfg.disableItemDrops) {
        if Flag(cfg.itemAllowlisting) {
          if e.itemType !in cfg.itemAllowlist {
            reply := CancelItemDrop(cfg, e, now);
          }
        } else {
          reply := CancelItemDrop(cfg, e, now);
        }
      }
    }

    /** `cancelItemDrop(e)`: check the player, cancel, then warn if configured. */
    method CancelItemDrop(cfg: Config, e: DropEvent, now: Int64) returns (reply: Reply)
      modifies this`playerMessageTimestamps, e`cancelled
      ensures match ValidatePlayerObject(e.player)
        case Err(err) =>
          reply == Thrown(err) && e.cancelled == old(e.cancelled)
          && playerMessageTimestamps == old(playerMessageTimestamps)
        case Ok(p) =>
          && e.cancelled
          && (!cfg.warnPlayerOnDrop ==> reply == NoMessage && playerMessageTimestamps == old(playerMessageTimestamps))
          && (cfg.warnPlayerOnDrop ==>
                Step(reply, playerMessageTimestamps) == WarnStep(cfg, old(playerMessageTimestamps), p.name, now))
    {
      var checked := ValidatePlayerObject(e.player);
      if checked.Err? {
        return Thrown(checked.error);
      }
      var p := checked.value;
      e.cancelled := true;
      reply := NoMessage;
      if cfg.warnPlayerOnDrop {
        reply := SendWarningMessage(cfg, p, now);
      }
    }

    /** `resetPlayerMessageTimestamps()`: clears the table in a unit-test environment only. */
    method ResetPlayerMessageTimestamps()
      modifies this`playerMessageTimestamps
      ensures playerMessageTimestamps == if unitTestEnv then map[] else old(playerMessageTimestamps)
    {
      if unitTestEnv {
        playerMessageTimestamps := map[];
      }
    }

    /** `sendWarningMessage(p)` at time `now`. */
    method SendWarningMessage(cfg: Config, p: Player, now: Int64) returns (reply: Reply)
      modifies this`playerMessageTimestamps
      ensures Step(reply, playerMessageTimestamps) == WarnStep(cfg, old(playerMessageTimestamps), p.name, now)
      ensures forall other :: other != p.name && other in old(playerMessageTimestamps) ==>
        other in playerMessageTimestamps && playerMessageTimestamps[other] == old(playerMessageTimestamps)[other]
    {
      var timeout: Int64 := cfg.warningTimeout * NanosPerSecond;
      var buffer: Int64 := BufferNanos;
      var lastMessageTime: Option<Int64> :=
        if p.name in playerMessageTimestamps then Some(playerMessageTimestamps[p.name]) else None;

      reply := NoMessage;
      if lastMessageTime.None? || Wrap64(now as int - lastMessageTime.value) >= timeout + buffer {
        var msg := ValidateWarningMessage(cfg);
        if msg.Err? {
          return Thrown(msg.error);
        }
        reply := Message(FormatChatMessage(msg.value, p.name));
        playerMessageTimestamps := playerMessageTimestamps[p.name := now];
      }
    }
  }
}
