/**
 What the bot publishes for a given server state: the number of real
 players, the choice of one of the four templates from the round flags and
 that number, placeholder substitution and the presence level.
 */
module Status {
  import opened Text
  import opened Options
  import opened Config
  import opened Presence

  /** A player on the ready list; dummies (bots) are not counted. */
  datatype Player = Player(isDummy: bool)

  /** The three round flags the selection reads, sampled together. */
  datatype RoundState = RoundState(isRoundStarted: bool, isRoundInProgress: bool, isRoundEnded: bool)

  /** What is sent to the sink: an activity text and a presence level. */
  datatype Publication = Publication(text: string, level: UserStatus)

  /** The number of ready players that are not dummies. */
  function ReadyCount(players: seq<Player>): (n: nat)
    ensures n <= |players|
    ensures n == |players| <==> forall i :: 0 <= i < |players| ==> !players[i].isDummy
    ensures n == 0 <==> forall i :: 0 <= i < |players| ==> players[i].isDummy
    decreases |players|
  {
    if |players| == 0 then 0
    else ReadyCount(players[1..]) + (if players[0].isDummy then 0 else 1)
  }

  /** The count is additive over a split of the ready list, so it does not
      depend on how the list is partitioned. */
  lemma {:induction false} ReadyCountAppend(a: seq<Player>, b: seq<Player>)
    ensures ReadyCount(a + b) == ReadyCount(a) + ReadyCount(b)
    decreases |a|
  {
    if |a| == 0 {
      assert a + b == b;
    } else {
      assert (a + b)[1..] == a[1..] + b;
      ReadyCountAppend(a[1..], b);
    }
  }

  /** The template for a round state and player count. Every combination of
      flags selects exactly one key. */
  function SelectKey(round: RoundState, count: nat): (k: Key)
    ensures k == NoPlayers <==> round.isRoundStarted && round.isRoundInProgress && count == 0
    ensures k == Players <==> round.isRoundStarted && round.isRoundInProgress && count > 0
    ensures k == RoundEnded <==>
              round.isRoundStarted && !round.isRoundInProgress && round.isRoundEnded
    ensures k == WaitingForPlayers <==>
              !round.isRoundStarted || (!round.isRoundInProgress && !round.isRoundEnded)
  {
    if !round.isRoundStarted then WaitingForPlayers
    else if round.isRoundInProgress then (if count == 0 then NoPlayers else Players)
    else if round.isRoundEnded then RoundEnded
    else WaitingForPlayers
  }

  /** Renders one template for a count: the placeholder becomes the count and
      the status string becomes a presence level. */
  function RenderTemplate(t: Config.Status, count: nat): (p: Publication)
    ensures !Contains(p.text, Placeholder)
    ensures !Contains(t.text, Placeholder) ==> p.text == t.text
    ensures Contains(t.text, Placeholder) ==> p.text != t.text
    ensures forall parts :: FreeParts(parts, Placeholder) && t.text == JoinWith(parts, Placeholder) ==>
              p.text == JoinWith(parts, Decimal(count))
    ensures p.level == MapStatus(t.status)
  {
    SubstituteComplete(t.text, count);
    Publication(Substitute(t.text, count), MapStatus(t.status))
  }

  /** The publication for the current server state: the template the round
      flags and the real-player count select, rendered for that count. */
  function Render(m: StatusMessages, round: RoundState, players: seq<Player>): (p: Publication)
    ensures var t := Template(m, SelectKey(round, ReadyCount(players)));
            && !Contains(p.text, Placeholder)
            && (!Contains(t.text, Placeholder) ==> p.text == t.text)
            && (forall parts :: FreeParts(parts, Placeholder) && t.text == JoinWith(parts, Placeholder) ==>
                  p.text == JoinWith(parts, Decimal(ReadyCount(players))))
            && p.level == MapStatus(t.status)
  {
    var count := ReadyCount(players);
    RenderTemplate(Template(m, SelectKey(round, count)), count)
  }

  /** The publication forced when the server starts waiting for players: the
      waiting template whatever the round flags say. */
  function WaitingPublication(m: StatusMessages, players: seq<Player>): (p: Publication)
    ensures p == Render(m, RoundState(false, false, false), players)
    ensures p.level == MapStatus(m.waitingForPlayers.status)
  {
    RenderTemplate(m.waitingForPlayers, ReadyCount(players))
  }

  /** One status update: nothing when the client is not logged in, else the
      publication for the state sampled now. */
  function UpdateStatus(loggedIn: bool, m: StatusMessages, round: RoundState, players: seq<Player>)
    : (r: Option<Publication>)
    ensures r.None? <==> !loggedIn
    ensures r.Some? ==> r.value == Render(m, round, players)
  {
    if !loggedIn then None else Some(Render(m, round, players))
  }

  lemma DefaultLevels()
    ensures MapStatus("idle") == Idle
    ensures MapStatus("online") == Online
  {
    ToLowerFixesLower("idle");
    ToLowerFixesLower("online");
  }

  /** The default templates: the three literal ones are published verbatim
      for every count, and the levels are idle. */
  lemma DefaultLiteralTemplatesRender(count: nat)
    ensures RenderTemplate(DefaultStatuses.waitingForPlayers, count)
              == Publication("Waiting for players...", Idle)
    ensures RenderTemplate(DefaultStatuses.noPlayers, count) == Publication("Players: 0", Idle)
    ensures RenderTemplate(DefaultStatuses.roundEnded, count) == Publication("Round ended", Idle)
  {
    DefaultLevels();
    NoBraceNoPlaceholder("Waiting for players...");
    NoBraceNoPlaceholder("Players: 0");
    NoBraceNoPlaceholder("Round ended");
  }

  /** A text that is exactly the placeholder becomes the count. */
  lemma SubstituteWhole(count: nat)
    ensures Substitute(Placeholder, count) == Decimal(count)
  {
    var rep := Decimal(count);
    assert Placeholder[..|Placeholder|] == Placeholder;
    assert ReplaceAll(Placeholder[|Placeholder|..], Placeholder, rep) == [];
    assert rep + [] == rep;
  }

  /** A `{` that does not start a placeholder is kept, and the placeholder
      right after it still becomes the count. */
  lemma StrayBraceRender(status: string, count: nat)
    ensures RenderTemplate(Config.Status("{{count}", status), count).text == "{" + Decimal(count)
  {
    var parts := ["{", ""];
    assert !Contains("{", Placeholder) by {
      assert forall i :: 0 <= i <= 1 ==> !OccursAt("{", Placeholder, i);
    }
    assert !Contains("", Placeholder) by {
      assert forall i :: 0 <= i <= 0 ==> !OccursAt("", Placeholder, i);
    }
    assert FreeParts(parts, Placeholder);
    assert JoinWith(parts, Placeholder) == "{{count}";
    assert JoinWith(parts, Decimal(count)) == "{" + Decimal(count) + "";
  }

  /** The default counted template shows the count and is online. */
  lemma DefaultPlayersTemplateRender(count: nat)
    ensures RenderTemplate(DefaultStatuses.players, count)
              == Publication("Players: " + Decimal(count), Online)
  {
    DefaultLevels();
    SubstituteWhole(count);
    var prefix := "Players: ";
    assert forall i :: 0 <= i < |prefix| ==> prefix[i] != Placeholder[0];
    ReplaceSkipsPrefix(prefix, Placeholder, Placeholder, Decimal(count));
    assert DefaultStatuses.players.text == prefix + Placeholder;
  }

  /** With the default templates and five real players in a running round the
      bot shows "Players: 5" and is online. */
  lemma DefaultRenderFivePlayers(players: seq<Player>)
    requires |players| == 5 && forall i :: 0 <= i < 5 ==> !players[i].isDummy
    ensures Render(DefaultStatuses, RoundState(true, true, false), players)
              == Publication("Players: 5", Online)
  {
    DefaultPlayersTemplateRender(5);
    assert Decimal(5) == "5";
  }
}
