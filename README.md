# Rebellion G54 IRC plugin: role and settings commands

This project models the self-contained logic of the Cinch IRC plugin that runs games of
Rebellion G54, a Coup-like card game (lib/cinch/plugins/rebellion_g54.rb). The model
covers four parts of the plugin:

- **`roles +name -name …` (`set_roles`).** Edits the waiting room's proposed role
  list. Editing starts from the stored list or from the five default roles. Unknown
  additions are reported, and the list is stored without duplicates.
- **`roles random <spec>` (`random_roles`, driving `Chooser`).** Builds a role list
  from a string of group letters. Each group letter picks at most one role not chosen
  yet, from the requested group, or none when no candidate is left. A `+` or `-` before
  a letter restricts that one pick to advanced or basic roles. Other characters are
  ignored.
- **`settings +sync -sync …` (`set_settings`).** Sets the synchronous-challenges flag
  of the next game and, if one is running, of the current game. It reports every
  other token as unknown.
- **`player_info` and `send_choice_explanations`.** Render a player for the table
  and list the player's choices. The rule that matters is which cards are masked when
  secrets are hidden.

Modules:

| module | file | content |
|---|---|---|
| `Text` | text.dfy | `split`, `strip.empty?`, `downcase`, `capitalize`, `join`, `Integer#to_s` |
| `Wrappers`, `Roles`, `Lists` | roles.dfy | the role catalogue as data, `DEFAULT_ROLES`, `reject!` and `uniq!` on sequences |
| `Room` | room.dfy | the waiting room and game objects the commands update, and their replies |
| `RoleEditing` | role_editing.dfy | `set_roles` |
| `RandomRoles` | random_roles.dfy | `Chooser` and `random_roles` |
| `SettingsEditing` | settings_editing.dfy | `set_settings` |
| `Rendering` | rendering.dfy | `player_info` and `send_choice_explanations` |

How the commands are modelled:

- **Role catalogue.** `Role::ALL` lives in a file that is not part of this model. It is
  the parameter `all`: a map from a role's name to its group and tier.
- **Role names.** `Role.to_s`, the display name of a role, is the parameter `name`.
- **Random choice.** `Array#sample` is a nondeterministic choice (`:|`) among the
  candidates. The ghost predicate `Outcome` describes every role list a run can
  produce.
- **Loops.** Each command's token or character loop is a method. The token loops
  are proved equal to a left-to-right fold (`ApplyRoleTokens`, `ApplySettingTokens`).
  The character loop (`ChooseRoles`) is proved to produce a role list that `Outcome`
  allows. Wrapper methods store the result in the `WaitingRoom` and `Game` objects.
- **Replies.** The chat replies are values of the `Reply` datatype, not text.

## Model

| member | source | states |
|---|---|---|
| Lists.Without | lib/cinch/plugins/rebellion_g54.rb:374 | `reject!` with an equality test removes every copy of the element and keeps the rest, with their multiplicities; the result is never longer |
| Lists.WithoutConcat | lib/cinch/plugins/rebellion_g54.rb:374 | removal works element by element and keeps the order: removing from a concatenation removes from each part |
| Lists.WithoutSingle | lib/cinch/plugins/rebellion_g54.rb:374 | a one-element list loses its element exactly when it is the removed one; with `WithoutConcat` this fixes the result as the list filtered in order |
| Lists.WithoutMembers | lib/cinch/plugins/rebellion_g54.rb:374 | an element is in the result iff it was in the list and differs from the removed one; removing a present element from a duplicate-free list shortens it by exactly one |
| Lists.WithoutAbsent | lib/cinch/plugins/rebellion_g54.rb:374 | removing an absent element leaves the list unchanged |
| Lists.NoDupsKeptByWithout | lib/cinch/plugins/rebellion_g54.rb:374 | removal keeps a duplicate-free list duplicate-free |
| Lists.Dedup | lib/cinch/plugins/rebellion_g54.rb:379 | `uniq!` yields a duplicate-free list with exactly the same elements, no longer than the input |
| Lists.DedupOfDistinct | lib/cinch/plugins/rebellion_g54.rb:379 | `uniq!` leaves a duplicate-free list unchanged |
| Lists.DedupKeepsFirstOccurrenceOrder | lib/cinch/plugins/rebellion_g54.rb:379 | `uniq!` keeps elements in the order of their first occurrences |
| Text.Blank | lib/cinch/plugins/rebellion_g54.rb:359 | `strip.empty?` holds exactly when every character is whitespace or NUL; a text in which `split` finds no word is blank |
| Text.BlankIffOnlyNulWords | lib/cinch/plugins/rebellion_g54.rb:359 | a text is blank exactly when every word `split` finds in it consists of NUL characters only |
| Text.BlankConcat | lib/cinch/plugins/rebellion_g54.rb:359 | a text is blank exactly when both of its parts are |
| Text.Tokens | lib/cinch/plugins/rebellion_g54.rb:363 | `split` yields non-empty tokens without whitespace, and yields none exactly when the text is all whitespace |
| Text.TokensSplitAtSpace | lib/cinch/plugins/rebellion_g54.rb:363 | a whitespace character splits the text: the tokens of the whole are the tokens before it followed by the tokens after it |
| Text.SingleToken | lib/cinch/plugins/rebellion_g54.rb:363 | a single word splits into itself |
| Text.Lower | lib/cinch/plugins/rebellion_g54.rb:365 | `downcase` keeps the length and maps each character through `LowerChar` |
| Text.LowerChar | lib/cinch/plugins/rebellion_g54.rb:365 | an ASCII capital moves 32 code points down the table to its small letter; every other character is kept |
| Text.Capitalize | lib/cinch/plugins/rebellion_g54.rb:242 | `capitalize` keeps the length, upper-cases the first character and lower-cases the rest |
| Text.Join | lib/cinch/plugins/rebellion_g54.rb:243 | `join` of no parts is empty and of one part is that part; otherwise the text opens with the first part and ends with the last |
| Text.DecimalRoundTrip | lib/cinch/plugins/rebellion_g54.rb:243 | `Integer#to_s` writes only digits, with no leading zero, and reading them back gives the number |
| RoleEditing.StartingRoles | lib/cinch/plugins/rebellion_g54.rb:361 | with no stored list, editing starts from the five distinct default roles; a stored list (even an empty one) is used as it is |
| RoleEditing.ApplyRoleToken | lib/cinch/plugins/rebellion_g54.rb:363-375 | one token changes either the list or the unknown names, never both; an unknown name is added only by a `+` token whose lower-cased tail is not a catalogue role, and it is that tail; the list grows by at most one role |
| RoleEditing.RolesAfter | lib/cinch/plugins/rebellion_g54.rb:357-380 | nothing is stored exactly when the spec is blank; what is stored is duplicate-free |
| RoleEditing.EditRoles | lib/cinch/plugins/rebellion_g54.rb:362-376 | the token loop leaves the list and the unknown names that the tokens, applied left to right, produce |
| RoleEditing.SetRoles | lib/cinch/plugins/rebellion_g54.rb:357-382 | a blank spec stores nothing and sends nothing; otherwise the de-duplicated list is stored, the other setting is untouched, and the unknown names are reported (only when there are some) before the new list |
| RoleEditing.EditStaysWithinCatalogue | lib/cinch/plugins/rebellion_g54.rb:363-376 | every role an edit ends with was in the starting list or is a catalogue role |
| RoleEditing.StoredRolesAreDistinctAndKnown | lib/cinch/plugins/rebellion_g54.rb:379-380 | a non-blank spec stores a duplicate-free list whose roles come from the starting list or the catalogue |
| RoleEditing.BlankSpecStoresNothing | lib/cinch/plugins/rebellion_g54.rb:359 | a blank spec leaves nothing to store |
| RoleEditing.AddKnownRole | lib/cinch/plugins/rebellion_g54.rb:364-379 | `+name` for a catalogue role reports nothing and appends the lower-cased name to any list, duplicates included; after `uniq!` the role follows the old list's first occurrences exactly when it was missing, so a duplicate-free list becomes itself or itself plus the role |
| RoleEditing.AddUnknownRole | lib/cinch/plugins/rebellion_g54.rb:364-370 | `+name` for a non-catalogue name leaves the list alone and records the lower-cased name as unknown |
| RoleEditing.RemoveRole | lib/cinch/plugins/rebellion_g54.rb:372-374 | `-name` removes exactly the roles equal to the lower-cased name, reports nothing, changes nothing when the role is absent, and shortens a duplicate-free list by one when it is present |
| RoleEditing.OtherTokenIgnored | lib/cinch/plugins/rebellion_g54.rb:363-375 | a token starting with neither `+` nor `-` changes nothing |
| RoleEditing.OneWordCommand | lib/cinch/plugins/rebellion_g54.rb:359-380 | a one-word spec stores the starting list edited by that word alone, de-duplicated |
| RoleEditing.AddCommandKnown | lib/cinch/plugins/rebellion_g54.rb:364-380 | the command `+name` for a catalogue role reports nothing and stores the starting list when the role was in it, and the starting list plus the role at its end otherwise |
| RoleEditing.AddCommandUnknown | lib/cinch/plugins/rebellion_g54.rb:364-380 | the command `+name` for an unknown name stores the starting list unchanged and reports the name |
| RoleEditing.RemoveCommand | lib/cinch/plugins/rebellion_g54.rb:372-380 | the command `-name` reports nothing and stores the starting list with that role filtered out, the rest in order; one shorter when it was there, unchanged when it was not |
| RoleEditing.AddLawyerGivesSix | spec/rebellion_g54_spec.rb:159-163 | `+lawyer` on the defaults gives six roles and no unknown name |
| RoleEditing.AddBankerKeepsFive | spec/rebellion_g54_spec.rb:165-169 | `+banker` on the defaults keeps five roles |
| RoleEditing.AddNonsenseIsUnknown | spec/rebellion_g54_spec.rb:171-175 | `+nonsense` keeps the defaults and reports `nonsense` |
| RoleEditing.RemoveBankerGivesFour | spec/rebellion_g54_spec.rb:177-181 | `-banker` on the defaults leaves four roles, without the banker |
| RoleEditing.RemoveAbsentKeepsFive | spec/rebellion_g54_spec.rb:183-187 | `-nonsejse` keeps the defaults and reports nothing |
| RandomRoles.ActionOf | lib/cinch/plugins/rebellion_g54.rb:342-350 | `+` and `-` set a tier flag, `c`, `$`, `f`, `s` and `a` in either case pick from communications, finance, force, special interests or any group; every other character does nothing |
| RandomRoles.ActionIgnoresCase | lib/cinch/plugins/rebellion_g54.rb:342 | a character acts as its lower-cased form does |
| RandomRoles.Candidates | lib/cinch/plugins/rebellion_g54.rb:321-324 | the candidates are catalogue roles not chosen yet, of the requested group, advanced when the advanced flag is set and basic when the basic flag is set |
| RandomRoles.CandidatesNarrowed | lib/cinch/plugins/rebellion_g54.rb:321-324 | a tier flag or a group only narrows the candidates: they are among those with no flag and among those of any group |
| RandomRoles.FlagsAfter | lib/cinch/plugins/rebellion_g54.rb:312-327 | the tier flags after a prefix of the spec never are both set |
| RandomRoles.PickCount | lib/cinch/plugins/rebellion_g54.rb:345-349 | the number of picking letters is at most the length of the spec |
| RandomRoles.PickCountCountsPickLetters | lib/cinch/plugins/rebellion_g54.rb:345-349 | `PickCount` is the number of positions of the spec that hold a picking letter |
| RandomRoles.Chooser.constructor | lib/cinch/plugins/rebellion_g54.rb:307-311 | a new chooser has no roles and neither flag set |
| RandomRoles.Chooser.SetAdvancedOnly | lib/cinch/plugins/rebellion_g54.rb:312-315 | `advanced_only!` sets the advanced flag, clears the basic one and keeps the roles |
| RandomRoles.Chooser.SetBasicOnly | lib/cinch/plugins/rebellion_g54.rb:316-319 | `basic_only!` sets the basic flag, clears the advanced one and keeps the roles |
| RandomRoles.Chooser.Pick | lib/cinch/plugins/rebellion_g54.rb:320-328 | with no candidate the list is unchanged; otherwise exactly one role is appended, and it is a catalogue role not chosen yet, of the requested group and of the tier a flag demands; both flags are cleared and the list stays duplicate-free |
| RandomRoles.ChooseRoles | lib/cinch/plugins/rebellion_g54.rb:340-351 | the character loop ends with a role list that `Outcome` allows for the whole spec |
| RandomRoles.RandomRoles | lib/cinch/plugins/rebellion_g54.rb:331-355 | a blank spec only sends the two help replies; otherwise a possible outcome replaces the stored roles, the other setting is untouched, and the new list is reported |
| RandomRoles.OutcomeIsDistinctAndBounded | lib/cinch/plugins/rebellion_g54.rb:320-351 | whatever `sample` returns, the chosen roles are distinct catalogue roles, no more than there are picking letters |
| RandomRoles.OutcomeRolesFitTheirLetters | lib/cinch/plugins/rebellion_g54.rb:321-351 | every chosen role has the group of some picking letter and the tier the flags demanded when that letter was read |
| RandomRoles.ChosenRoleFitsItsLetter | lib/cinch/plugins/rebellion_g54.rb:321-351 | the same for one chosen role: it is a catalogue role that some picking letter of the spec could take |
| RandomRoles.FlagsForgetThePast | lib/cinch/plugins/rebellion_g54.rb:312-327 | after any `+`, `-` or picking letter, the flags do not depend on what came before it (the last prefix wins and a pick clears it) |
| RandomRoles.OneLetterPicksOne | spec/rebellion_g54_spec.rb:108-136 | a one-letter spec chooses exactly one role when the catalogue has a candidate of that group, and none otherwise |
| RandomRoles.TierThenLetterPicksOne | spec/rebellion_g54_spec.rb:138-148 | `+A` and `-A` choose exactly one role when the catalogue has one of that tier, and none otherwise |
| SettingsEditing.Desire | lib/cinch/plugins/rebellion_g54.rb:269-276 | `desire` is true exactly after `+`, false exactly after `-`, and nil exactly when the token has neither prefix |
| SettingsEditing.ApplySettingToken | lib/cinch/plugins/rebellion_g54.rb:270-283 | one token never creates or removes the game's flag; a `sync` token sets the waiting room's flag, and a running game's, to its desire, any other leaves both alone; an unprefixed token and a tail other than `sync` each add one unknown name after the old ones |
| SettingsEditing.ScanSettings | lib/cinch/plugins/rebellion_g54.rb:268-284 | the token loop leaves the flags and the unknown names that the tokens, applied left to right, produce |
| SettingsEditing.SetSettings | lib/cinch/plugins/rebellion_g54.rb:264-292 | the waiting room's flag (and the game's, when a game runs) are stored as the loop leaves them, the stored roles are untouched, and the unknown names (only when there are some) are reported before the game's or the next game's flag |
| SettingsEditing.GameFlagStaysPresent | lib/cinch/plugins/rebellion_g54.rb:277-280 | the game flag is written only when a game exists |
| SettingsEditing.LastSyncTokenWins | lib/cinch/plugins/rebellion_g54.rb:277-280 | both flags end as the desire of the last `sync` token; with none they are left as they were; the game mirrors the waiting room |
| SettingsEditing.UnknownOnlyGrows | lib/cinch/plugins/rebellion_g54.rb:275-282 | the loop only appends to the unknown names |
| SettingsEditing.NothingUnknownIffAllSync | lib/cinch/plugins/rebellion_g54.rb:270-282 | nothing is reported as unknown exactly when every token is `+sync` or `-sync` |
| SettingsEditing.PrefixedSyncToken | lib/cinch/plugins/rebellion_g54.rb:270-280 | `+sync` stores true and `-sync` stores false, in the waiting room and in a running game, and reports nothing |
| SettingsEditing.PrefixedOtherToken | lib/cinch/plugins/rebellion_g54.rb:281-282 | any other prefixed token changes no flag and reports its name |
| SettingsEditing.UnprefixedToken | lib/cinch/plugins/rebellion_g54.rb:274-282 | a token without a prefix is reported whole, then its tail is reported too |
| SettingsEditing.UnprefixedSyncStoresNil | lib/cinch/plugins/rebellion_g54.rb:274-280 | a token such as `xsync` is reported whole and still stores nil as the setting |
| SettingsEditing.PlusSyncCommand | lib/cinch/plugins/rebellion_g54.rb:268-280 | the command `+sync` stores true and reports nothing |
| SettingsEditing.MinusSyncCommand | lib/cinch/plugins/rebellion_g54.rb:268-280 | the command `-sync` stores false and reports nothing |
| Rendering.CardTexts | lib/cinch/plugins/rebellion_g54.rb:232-241 | one text per card: live, then side, then revealed |
| Rendering.HiddenCardsAreMasked | lib/cinch/plugins/rebellion_g54.rb:233-238 | with secrets hidden, live cards read `(########)` and side cards show only the claimed role, `<??role??>` |
| Rendering.SecretsShowTrueRoles | lib/cinch/plugins/rebellion_g54.rb:233-238 | with secrets shown, live and side cards show their true roles |
| Rendering.RevealedCardsAlwaysShown | lib/cinch/plugins/rebellion_g54.rb:239-241 | revealed cards show their role whether or not secrets are shown |
| Rendering.Status | lib/cinch/plugins/rebellion_g54.rb:243 | the status reads `ELIMINATED` exactly when the player has no influence left |
| Rendering.TokenText | lib/cinch/plugins/rebellion_g54.rb:242 | no tokens add no text; otherwise the token text opens with ` - ` |
| Rendering.PlayerInfo | lib/cinch/plugins/rebellion_g54.rb:231-244 | the line opens with the first live card's text and ends with ` - `, the status and the token text |
| Rendering.MaskedLineOpensWithMask | lib/cinch/plugins/rebellion_g54.rb:233-244 | with secrets hidden, a player with a live card has a line that opens with `(########)` |
| Rendering.HiddenInfoDoesNotLeak | lib/cinch/plugins/rebellion_g54.rb:231-244 | with secrets hidden, two players that differ only in their live roles and their side cards' true roles get the same text |
| Rendering.StatusShowsCoinsOnlyWhileAlive | lib/cinch/plugins/rebellion_g54.rb:243 | `ELIMINATED` appears exactly when influence is zero; otherwise `Coins: ` is followed by digits that read back as the coin count |
| Rendering.Select | lib/cinch/plugins/rebellion_g54.rb:199 | each part of the partition holds only entries of its availability, and no more entries than the input |
| Rendering.PartitionIsComplete | lib/cinch/plugins/rebellion_g54.rb:199 | every entry lands in exactly one of the two parts |
| Rendering.UnavailablePartNonEmpty | lib/cinch/plugins/rebellion_g54.rb:199-202 | the unavailable part is non-empty exactly when some entry is unavailable |
| Rendering.ChoiceMessages | lib/cinch/plugins/rebellion_g54.rb:198-207 | two messages are sent exactly when unavailable choices are asked for and some exist; otherwise one |

## Left out

- The game engine (`rebellion_g54/game`, `rebellion_g54/role`) is not part of this
  model: its decisions, deck, turn order and the way it derives a player's cards,
  coins and influence. `Player` takes those as plain fields.
- `Role::ALL` and `Role.to_s` are not part of this model. They are the parameters
  `all` and `name`.
- Chat transport is left out: `match` routes, `ChannelOutputter`, `m.reply`,
  `user.send`, `player_died`, and `game_of`/`waiting_room_of` from the unshown
  `GameBot` parent. The model assumes that the waiting room was found, and that the
  game is present or `null`.
- The exact wording of the replies is left out. A reply is a `Reply` value carrying
  the data it shows. `help`, `rules`, `table_info`, `decision_info`, `get_roles`,
  `get_settings` and `list_possible_roles` are left out too: they only format data.
- The randomness of `sample`: any candidate may be chosen; no distribution is modelled.
- A `nil` spec is taken to be the empty string, which the source also treats as blank.
- Text.Lower: `downcase` is modelled for ASCII letters only; Ruby's full Unicode case
  mapping is not modelled.
- Text.Tokens: `split` separates on ASCII whitespace only, and `strip.empty?` also
  treats NUL as blank (Ruby's `strip` removes leading and trailing NULs).
- RoleEditing.SetRoles: `set_roles` edits the stored array in place. Another object
  that shares that array would see the edit. The model copies the list, so this
  aliasing is not modelled.
- RandomRoles.RandomRoles: the chooser's array is stored directly. Any later mutation
  through a shared reference is not modelled.
- Rendering.PlayerInfo: the contract fixes how the line opens and how it ends. The
  cards in between are stated about `CardTexts`, the list that is joined with spaces,
  and non-interference is stated about the whole text.
- Rendering.ChoiceMessages: the explanations hash is an ordered list of entries. Its
  key is the `choice` field.
