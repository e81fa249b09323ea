/**
 The plugin configuration: two feature switches, the bot credential and the
 four status templates, each a (text, status string) pair, with the values a
 freshly generated configuration file holds.
 */
module Config {

  /** One configured presence: the activity text, which may hold the
      `{count}` placeholder, and the presence level as a free-form string. */
  datatype Status = Status(text: string, status: string)

  /** The four templates, one per situation the publisher distinguishes. */
  datatype StatusMessages = StatusMessages(
    waitingForPlayers: Status,
    noPlayers: Status,
    players: Status,
    roundEnded: Status)

  datatype DiscordConfig = DiscordConfig(token: string)

  datatype PluginConfig = PluginConfig(
    isEnabled: bool,
    debug: bool,
    discord: DiscordConfig,
    statuses: StatusMessages)

  /** The key of a template, one per field of `StatusMessages`. */
  datatype Key = WaitingForPlayers | NoPlayers | Players | RoundEnded

  const AllKeys: seq<Key> := [WaitingForPlayers, NoPlayers, Players, RoundEnded]

  /** Looks a template up by its key. */
  function Template(m: StatusMessages, k: Key): Status {
    match k
    case WaitingForPlayers => m.waitingForPlayers
    case NoPlayers => m.noPlayers
    case Players => m.players
    case RoundEnded => m.roundEnded
  }

  /** The templates are exactly four keyed records: every key is listed once,
      and two template sets that agree on every key are the same. */
  lemma KeysComplete(m: StatusMessages, m': StatusMessages)
    ensures |AllKeys| == 4
    ensures forall k: Key :: k in AllKeys
    ensures forall i, j :: 0 <= i < j < |AllKeys| ==> AllKeys[i] != AllKeys[j]
    ensures (forall k: Key :: Template(m, k) == Template(m', k)) ==> m == m'
  {
    forall k: Key
      ensures k in AllKeys
    {
      match k
      case WaitingForPlayers => assert AllKeys[0] == k;
      case NoPlayers => assert AllKeys[1] == k;
      case Players => assert AllKeys[2] == k;
      case RoundEnded => assert AllKeys[3] == k;
    }
    if forall k: Key :: Template(m, k) == Template(m', k) {
      assert Template(m, WaitingForPlayers) == Template(m', WaitingForPlayers);
      assert Template(m, NoPlayers) == Template(m', NoPlayers);
      assert Template(m, Players) == Template(m', Players);
      assert Template(m, RoundEnded) == Template(m', RoundEnded);
    }
  }

  const DefaultStatuses: StatusMessages := StatusMessages(
    Status("Waiting for players...", "idle"),
    Status("Players: 0", "idle"),
    Status("Players: {count}", "online"),
    Status("Round ended", "idle"))

  const DefaultToken: string := "YOUR_DISCORD_BOT_TOKEN"

  /** The configuration written when none exists yet. */
  function DefaultConfig(): (c: PluginConfig)
    ensures c.isEnabled && !c.debug
    ensures c.statuses == DefaultStatuses
  {
    PluginConfig(true, false, DiscordConfig(DefaultToken), DefaultStatuses)
  }
}
