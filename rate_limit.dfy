/** The warning rate limit over a run of denied drops by one player: what a
    series of `sendWarningMessage` calls at increasing times sends. */
module RateLimit {
  import opened JavaTypes
  import opened ChatFormat
  import opened Gatekeeper

  /** The replies of a run of warning attempts, and the table after it. */
  datatype Trace = Trace(replies: seq<Reply>, table: map<string, Int64>)

  /** Warning attempts for `name` at each of `times`, in order. */
  function WarnTrace(cfg: Config, table: map<string, Int64>, name: string, times: seq<Int64>): (tr: Trace)
    ensures |tr.replies| == |times|
    decreases |times|
  {
    if times == [] then Trace([], table)
    else
      var s := WarnStep(cfg, table, name, times[0]);
      var rest := WarnTrace(cfg, s.table, name, times[1..]);
      Trace([s.reply] + rest.replies, rest.table)
  }

  predicate NonDecreasing(times: seq<Int64>) {
    forall i, j :: 0 <= i < j < |times| ==> times[i] <= times[j]
  }

  /** A `long` difference that reached the window, of two readings taken in
      order, means the readings really are a window apart: a wrapped
      difference is negative, and the window is less than 2^63. */
  lemma InOrderDifference(earlier: Int64, later: Int64, w: Int64)
    requires earlier <= later
    requires Wrap64(later as int - earlier) >= w
    ensures later - earlier >= w
  {
    if later - earlier >= Int64Limit {
      assert Wrap64(later as int - earlier) == later - earlier - 0x1_0000_0000_0000_0000;
    }
  }

  /** Any two warnings sent to one player at non-decreasing clock readings are
      at least a window apart; when the timestamp on record is no later than
      the first reading, the first warning is at least a window after it too. */
  lemma {:induction false} WarningsSpacedByWindow(cfg: Config, table: map<string, Int64>, name: string, times: seq<Int64>)
    requires NonDecreasing(times)
    ensures var tr := WarnTrace(cfg, table, name, times);
      && (forall j :: 0 <= j < |times| && tr.replies[j].Message? && name in table && table[name] <= times[0] ==>
            times[j] - table[name] >= Window(cfg))
      && (forall i, j :: 0 <= i < j < |times| && tr.replies[i].Message? && tr.replies[j].Message? ==>
            times[j] - times[i] >= Window(cfg))
    decreases |times|
  {
    if times != [] {
      var s := WarnStep(cfg, table, name, times[0]);
      var tr := WarnTrace(cfg, table, name, times);
      var rest := WarnTrace(cfg, s.table, name, times[1..]);
      CooldownRule(cfg, table, name, times[0]);
      WarningsSpacedByWindow(cfg, s.table, name, times[1..]);
      assert tr.replies[1..] == rest.replies;
      if name in table && table[name] <= times[0] && s.reply.Message? {
        InOrderDifference(table[name], times[0], Window(cfg));
      }
      if |times| > 1 && name in s.table && s.table[name] <= times[0] {
        assert s.table[name] <= times[1..][0];
        forall j | 1 <= j < |times| && tr.replies[j].Message?
          ensures times[j] - s.table[name] >= Window(cfg)
        {
          assert rest.replies[j - 1].Message? && times[1..][j - 1] == times[j];
        }
      }
    }
  }

  /** Attempts that all fall inside the window of the recorded timestamp send
      nothing and leave the table as it was: suppressed attempts do not push
      the window back. */
  lemma {:induction false} SuppressedAttemptsKeepTable(cfg: Config, table: map<string, Int64>, name: string, times: seq<Int64>)
    requires name in table
    requires forall i :: 0 <= i < |times| ==> Wrap64(times[i] as int - table[name]) < Window(cfg)
    ensures var tr := WarnTrace(cfg, table, name, times);
      && tr.table == table
      && forall i :: 0 <= i < |times| ==> tr.replies[i] == NoMessage
    decreases |times|
  {
    if times != [] {
      SuppressedAttemptsKeepTable(cfg, table, name, times[1..]);
      assert forall i :: 1 <= i < |times| ==> times[1..][i - 1] == times[i];
    }
  }

  /** Drops by one player at `t0`, `t0 + 2s` and `t0 + 6.5s` with a five-second
      timeout: a warning, then silence, then a warning again. */
  lemma CooldownScenario(cfg: Config, table: map<string, Int64>, name: string, t0: Int64)
    requires cfg.warningTimeout == 5 && ValidateWarningMessage(cfg).Ok?
    requires name !in table
    requires 0 <= t0 < Int64Limit - 6_500_000_000
    ensures var msg := Message(FormatChatMessage(cfg.warningMessage.value, name));
      WarnTrace(cfg, table, name, [t0, t0 + 2_000_000_000, t0 + 6_500_000_000]).replies
        == [msg, NoMessage, msg]
  {
    var times: seq<Int64> := [t0, t0 + 2_000_000_000, t0 + 6_500_000_000];
    var s0 := WarnStep(cfg, table, name, times[0]);
    var s1 := WarnStep(cfg, s0.table, name, times[1]);
    var s2 := WarnStep(cfg, s1.table, name, times[2]);
    var msg := Message(FormatChatMessage(cfg.warningMessage.value, name));
    assert s0 == Step(msg, table[name := t0]);
    assert Wrap64(times[1] - t0) == 2_000_000_000;
    assert s1 == Step(NoMessage, s0.table);
    assert Wrap64(times[2] - t0) == 6_500_000_000;
    assert s2.reply == msg;
    assert times[1..][1..] == [times[2]] && times[1..][1..][1..] == [];
    assert WarnTrace(cfg, s1.table, name, [times[2]]).replies == [msg];
    assert WarnTrace(cfg, s0.table, name, times[1..]).replies == [NoMessage, msg];
  }
}
