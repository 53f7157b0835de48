/** The state the settings commands write: the waiting room's settings hash and the
    running game's challenge-timing flag, plus the replies the commands send. */
module Room {
  import opened Wrappers
  import opened Roles

  /** A Ruby value stored as the synchronous-challenges setting: true, false, or nil
      (nil is what a settings token without a `+`/`-` prefix stores). */
  datatype Flag = Yes | No | Nil

  /** The two keys of the waiting room's settings hash that the plugin uses; `None` is a
      key that is absent from the hash. */
  datatype Settings = Settings(sync: Option<Flag>, roles: Option<seq<Role>>)

  /** The replies the settings commands send, without their wording. */
  datatype Reply =
    | UnknownRoles(names: seq<string>)       // "These roles are unknown: ..."
    | NextGameRoles(roles: seq<Role>)        // "Next game will have N roles: ..."
    | RandomRolesLegend                      // the group letters and the +/- prefixes
    | RandomRolesExamples                    // the suggested random specifications
    | UnknownSettings(names: seq<string>)    // "These settings are unknown: ..."
    | GameSync(flag: Flag)                   // "Game N - Synchronous challenges: ..."
    | NextGameSync(setting: Option<Flag>)    // "Next game will have synchronous challenges: ..."

  /** The channel's waiting room; only its settings hash is modelled. */
  class WaitingRoom {
    var settings: Settings
  }

  /** A running game; only its `synchronous_challenges` attribute is modelled. */
  class Game {
    var synchronousChallenges: Flag
  }
}
