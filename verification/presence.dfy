/**
 The presence levels the bot can show and the mapping from the configured
 status string onto them.
 */
module Presence {
  import opened Text

  datatype UserStatus = Online | Idle | DoNotDisturb | Invisible

  /** Maps a configured status string onto a presence level, ignoring ASCII
      case; an unrecognised string falls back to `Idle`. */
  function MapStatus(status: string): (r: UserStatus)
    ensures r == Online <==> ToLower(status) == "online"
    ensures r == DoNotDisturb <==> ToLower(status) == "dnd"
    ensures r == Invisible <==> ToLower(status) == "offline"
    ensures r == Idle <==> ToLower(status) !in {"online", "dnd", "offline"}
  {
    var s := ToLower(status);
    if s == "online" then Online
    else if s == "idle" then Idle
    else if s == "dnd" then DoNotDisturb
    else if s == "offline" then Invisible
    else Idle
  }

  /** The canonical configuration string of each level. */
  function StatusName(level: UserStatus): string {
    match level
    case Online => "online"
    case Idle => "idle"
    case DoNotDisturb => "dnd"
    case Invisible => "offline"
  }

  /** Every level is reachable from the configuration: mapping the canonical
      name of a level gives that level back. */
  lemma MapStatusRoundTrip(level: UserStatus)
    ensures MapStatus(StatusName(level)) == level
  {
    ToLowerFixesLower(StatusName(level));
  }

  /** The mapping only looks at the string up to ASCII case. */
  lemma MapStatusIgnoresCase(s: string, t: string)
    requires EqualIgnoringCase(s, t)
    ensures MapStatus(s) == MapStatus(t)
  {
    EqualIgnoringCaseLower(s, t);
  }
}
