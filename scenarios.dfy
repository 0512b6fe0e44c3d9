/** The plugin object driven through the sequences of drops that its test
    suite performs, proved from the method contracts alone. */
module Scenarios {
  import opened JavaTypes
  import opened ChatFormat
  import opened Gatekeeper

  /** Three drops by one player with warnings on: at `t0`, inside the window,
      and one second after the timeout. All three are cancelled; the first and
      the last bring the formatted warning, the middle one nothing. */
  method DropsAroundTimeout(cfg: Config, p: Player, t0: Int64, timeout: Int32) returns (replies: seq<Reply>, cancelled: seq<bool>)
    requires Flag(cfg.disableItemDrops) && !Flag(cfg.itemAllowlisting)
    requires cfg.warnPlayerOnDrop && ValidateWarningMessage(cfg).Ok?
    requires cfg.warningTimeout == timeout && 0 <= timeout <= 3600
    requires 0 <= t0 < Int64Limit - 4_000_000_000_000
    ensures var msg := Message(FormatChatMessage(cfg.warningMessage.value, p.name));
      replies == [msg, NoMessage, msg]
    ensures cancelled == [true, true, true]
  {
    var plugin := new DropStop(true);
    var later: Int64 := t0 + (timeout + 1) * NanosPerSecond;

    var e1 := new DropEvent(Some(p), "STONE");
    var r1 := plugin.OnPlayerItemDrop(cfg, e1, t0);
    var e2 := new DropEvent(Some(p), "STONE");
    var r2 := plugin.OnPlayerItemDrop(cfg, e2, t0);
    var e3 := new DropEvent(Some(p), "STONE");
    assert Wrap64(later as int - t0) == later - t0;
    var r3 := plugin.OnPlayerItemDrop(cfg, e3, later);

    replies := [r1, r2, r3];
    cancelled := [e1.cancelled, e2.cancelled, e3.cancelled];
  }

  /** With allowlisting on and only `STONE` listed, dropping `STONE` goes
      through untouched and dropping `WOOD` is cancelled. */
  method AllowlistedStone(cfg: Config, p: Player, now: Int64) returns (stoneCancelled: bool, woodCancelled: bool)
    requires Flag(cfg.disableItemDrops) && Flag(cfg.itemAllowlisting)
    requires cfg.itemAllowlist == ["STONE"]
    ensures !stoneCancelled && woodCancelled
  {
    var plugin := new DropStop(true);
    var stone := new DropEvent(Some(p), "STONE");
    var _ := plugin.OnPlayerItemDrop(cfg, stone, now);
    var wood := new DropEvent(Some(p), "WOOD");
    var _ := plugin.OnPlayerItemDrop(cfg, wood, now);
    stoneCancelled, woodCancelled := stone.cancelled, wood.cancelled;
  }

  /** Warnings to every drop in a unit-test environment: clearing the table
      after each drop lets the next drop warn again at the same instant. */
  method ResetBetweenDrops(cfg: Config, p: Player, now: Int64) returns (first: Reply, second: Reply)
    requires Flag(cfg.disableItemDrops) && !Flag(cfg.itemAllowlisting)
    requires cfg.warnPlayerOnDrop && ValidateWarningMessage(cfg).Ok?
    ensures first.Message? && second == first
  {
    var plugin := new DropStop(true);
    var e1 := new DropEvent(Some(p), "STONE");
    first := plugin.OnPlayerItemDrop(cfg, e1, now);
    plugin.ResetPlayerMessageTimestamps();
    var e2 := new DropEvent(Some(p), "STONE");
    second := plugin.OnPlayerItemDrop(cfg, e2, now);
  }
}
