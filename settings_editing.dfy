/** The `settings <spec>` command: `+sync` and `-sync` switch synchronous challenges on
    and off for the next game and, when one is running, for the current game too. */
module SettingsEditing {
  import opened Wrappers
  import opened Text
  import opened Roles
  import opened Room

  /** What the token loop has produced so far: the waiting room's synchronous-challenges
      setting (`None` while the key is absent), the running game's flag (`None` when no
      game is running) and the names reported as unknown, in order. */
  datatype Scan = Scan(room: Option<Flag>, game: Option<Flag>, unknown: seq<string>)

  /** The token starts with `+` or `-`. */
  predicate Prefixed(s: string) {
    |s| > 0 && (s[0] == '+' || s[0] == '-')
  }

  /** The token names the `sync` setting after its first character, whatever that is. */
  predicate NamesSync(s: string) {
    |s| > 0 && s[1..] == "sync"
  }

  /** `desire`: true after `+`, false after `-`, and nil when the block never assigned it. */
  function Desire(s: string): (f: Flag)
    requires |s| > 0
    ensures f == Yes <==> s[0] == '+'
    ensures f == No <==> s[0] == '-'
    ensures f == Nil <==> !Prefixed(s)
  {
    if s[0] == '+' then Yes else if s[0] == '-' then No else Nil
  }

  /** One pass of the loop body. A token without a prefix is reported whole; then the
      rest of the token either sets `sync` to the desire or is reported as well. */
  function ApplySettingToken(st: Scan, s: string): (r: Scan)
    requires |s| > 0
    ensures r.game.Some? <==> st.game.Some?
    ensures !NamesSync(s) ==> r.room == st.room && r.game == st.game
    ensures NamesSync(s) ==> r.room == Some(Desire(s)) && (r.game.Some? ==> r.game.value == Desire(s))
    ensures |r.unknown| == |st.unknown| + (if Prefixed(s) then 0 else 1) + (if NamesSync(s) then 0 else 1)
    ensures r.unknown[..|st.unknown|] == st.unknown
  {
    var unknown := if Prefixed(s) then st.unknown else st.unknown + [s];
    if NamesSync(s) then
      Scan(Some(Desire(s)), if st.game.Some? then Some(Desire(s)) else None, unknown)
    else
      Scan(st.room, st.game, unknown + [s[1..]])
  }

  /** Every token of a whitespace split is non-empty. */
  predicate AllNonEmpty(tokens: seq<string>) {
    forall k :: 0 <= k < |tokens| ==> |tokens[k]| > 0
  }

  /** The loop over all tokens, in order. */
  function ApplySettingTokens(st: Scan, tokens: seq<string>): Scan
    requires AllNonEmpty(tokens)
    decreases |tokens|
  {
    if |tokens| == 0 then st
    else ApplySettingToken(ApplySettingTokens(st, tokens[..|tokens| - 1]), tokens[|tokens| - 1])
  }

  /** The token loop of `set_settings`, over the tokens of `spec`. */
  method ScanSettings(start: Scan, spec: string) returns (r: Scan)
    ensures r == ApplySettingTokens(start, Tokens(spec))
  {
    var tokens := Tokens(spec);
    r := start;
    var i := 0;
    while i < |tokens|
      invariant 0 <= i <= |tokens|
      invariant r == ApplySettingTokens(start, tokens[..i])
    {
      var s := tokens[i];
      assert tokens[..i + 1][..i] == tokens[..i];
      if s[0] == '+' || s[0] == '-' {
      } else {
        r := r.(unknown := r.unknown + [s]);
      }
      if s[1..] == "sync" {
        var desire := if s[0] == '+' then Yes else if s[0] == '-' then No else Nil;
        if r.game.Some? {
          r := r.(game := Some(desire));
        }
        r := r.(room := Some(desire));
      } else {
        r := r.(unknown := r.unknown + [s[1..]]);
      }
      i := i + 1;
    }
    assert tokens[..i] == tokens;
  }

  /** `set_settings`: runs the token loop against the waiting room and the game (if any),
      then reports the unknown names and the resulting setting. */
  method SetSettings(room: WaitingRoom, game: Game?, spec: string) returns (replies: seq<Reply>)
    modifies room, game
    ensures var r := ApplySettingTokens(Scan(old(room.settings.sync),
                                             if game != null then Some(old(game.synchronousChallenges)) else None,
                                             []), Tokens(spec));
      && room.settings == old(room.settings).(sync := r.room)
      && (game != null ==> r.game.Some? && game.synchronousChallenges == r.game.value)
      && replies == (if r.unknown == [] then [] else [UnknownSettings(r.unknown)])
                    + (if game != null then [GameSync(r.game.value)] else [NextGameSync(r.room)])
  {
    var start := Scan(room.settings.sync, if game != null then Some(game.synchronousChallenges) else None, []);
    GameFlagStaysPresent(start, Tokens(spec));
    var r := ScanSettings(start, spec);
    room.settings := room.settings.(sync := r.room);
    if game != null {
      game.synchronousChallenges := r.game.value;
    }
    replies := if r.unknown == [] then [] else [UnknownSettings(r.unknown)];
    if game != null {
      replies := replies + [GameSync(game.synchronousChallenges)];
    } else {
      replies := replies + [NextGameSync(room.settings.sync)];
    }
  }

  // ---------------------------------------------------------------------------
  // Properties of the token loop
  // ---------------------------------------------------------------------------

  /** A game that is running keeps a flag, and no game is ever invented. */
  lemma {:induction false} GameFlagStaysPresent(st: Scan, tokens: seq<string>)
    requires AllNonEmpty(tokens)
    ensures ApplySettingTokens(st, tokens).game.Some? <==> st.game.Some?
    decreases |tokens|
  {
    if |tokens| > 0 {
      GameFlagStaysPresent(st, tokens[..|tokens| - 1]);
    }
  }

  /** The flags end as the last `sync` token set them, in the waiting room and, when a
      game is running, in the game; with no `sync` token both are left as they were. */
  lemma {:induction false} LastSyncTokenWins(st: Scan, tokens: seq<string>)
    requires AllNonEmpty(tokens)
    ensures (forall i :: 0 <= i < |tokens| ==> !NamesSync(tokens[i])) ==>
      ApplySettingTokens(st, tokens).room == st.room && ApplySettingTokens(st, tokens).game == st.game
    ensures forall i :: 0 <= i < |tokens| && NamesSync(tokens[i]) && (forall j :: i < j < |tokens| ==> !NamesSync(tokens[j])) ==>
      && ApplySettingTokens(st, tokens).room == Some(Desire(tokens[i]))
      && ApplySettingTokens(st, tokens).game == (if st.game.Some? then Some(Desire(tokens[i])) else None)
    decreases |tokens|
  {
    if |tokens| > 0 {
      var init := tokens[..|tokens| - 1];
      var last := tokens[|tokens| - 1];
      LastSyncTokenWins(st, init);
      GameFlagStaysPresent(st, init);
      forall i | 0 <= i < |tokens| && NamesSync(tokens[i]) && (forall j :: i < j < |tokens| ==> !NamesSync(tokens[j]))
        ensures ApplySettingTokens(st, tokens).room == Some(Desire(tokens[i]))
        ensures ApplySettingTokens(st, tokens).game == (if st.game.Some? then Some(Desire(tokens[i])) else None)
      {
        if i < |tokens| - 1 {
          assert init[i] == tokens[i];
          assert !NamesSync(last);
          assert forall j :: i < j < |init| ==> init[j] == tokens[j];
        }
      }
      if forall i :: 0 <= i < |tokens| ==> !NamesSync(tokens[i]) {
        assert !NamesSync(last);
        assert forall i :: 0 <= i < |init| ==> init[i] == tokens[i];
      }
    }
  }

  /** The loop only appends to the unknown names. */
  lemma {:induction false} UnknownOnlyGrows(st: Scan, tokens: seq<string>)
    requires AllNonEmpty(tokens)
    ensures |ApplySettingTokens(st, tokens).unknown| >= |st.unknown|
    ensures ApplySettingTokens(st, tokens).unknown[..|st.unknown|] == st.unknown
    decreases |tokens|
  {
    if |tokens| > 0 {
      UnknownOnlyGrows(st, tokens[..|tokens| - 1]);
      var mid := ApplySettingTokens(st, tokens[..|tokens| - 1]).unknown;
      var u := ApplySettingTokens(st, tokens).unknown;
      assert u[..|mid|] == mid;
      assert u[..|st.unknown|] == mid[..|st.unknown|];
    }
  }

  /** Only `+sync` and `-sync` are understood: nothing is reported exactly when every
      token is one of them. */
  lemma {:induction false} NothingUnknownIffAllSync(st: Scan, tokens: seq<string>)
    requires AllNonEmpty(tokens)
    ensures ApplySettingTokens(st, tokens).unknown == st.unknown
        <==> forall i :: 0 <= i < |tokens| ==> Prefixed(tokens[i]) && NamesSync(tokens[i])
    decreases |tokens|
  {
    if |tokens| > 0 {
      var init := tokens[..|tokens| - 1];
      var last := tokens[|tokens| - 1];
      NothingUnknownIffAllSync(st, init);
      UnknownOnlyGrows(st, init);
      var mid := ApplySettingTokens(st, init).unknown;
      var u := ApplySettingTokens(st, tokens).unknown;
      assert forall i :: 0 <= i < |init| ==> init[i] == tokens[i];
      if Prefixed(last) && NamesSync(last) {
        assert u == mid;
      } else {
        assert |u| > |mid|;
      }
    }
  }

  /** `+sync` switches synchronous challenges on and `-sync` off; the name is not reported. */
  lemma PrefixedSyncToken(st: Scan, s: string)
    requires s == "+sync" || s == "-sync"
    ensures var f := if s == "+sync" then Yes else No;
      ApplySettingToken(st, s) == Scan(Some(f), if st.game.Some? then Some(f) else None, st.unknown)
  {
    assert s[1..] == "sync";
  }

  /** Any other prefixed token changes no flag and reports the name after its prefix. */
  lemma PrefixedOtherToken(st: Scan, s: string)
    requires Prefixed(s) && !NamesSync(s)
    ensures ApplySettingToken(st, s) == Scan(st.room, st.game, st.unknown + [s[1..]])
  {
  }

  /** A token without a prefix is reported whole and, unless its tail reads `sync`, its
      tail is reported too. */
  lemma UnprefixedToken(st: Scan, s: string)
    requires |s| > 0 && !Prefixed(s) && !NamesSync(s)
    ensures ApplySettingToken(st, s) == Scan(st.room, st.game, st.unknown + [s, s[1..]])
  {
  }

  /** The quirk of the loop: a token such as `xsync` is reported as unknown and still
      stores nil as the setting, in the waiting room and in a running game. */
  lemma UnprefixedSyncStoresNil(st: Scan, s: string)
    requires |s| > 0 && !Prefixed(s) && NamesSync(s)
    ensures ApplySettingToken(st, s) == Scan(Some(Nil), if st.game.Some? then Some(Nil) else None, st.unknown + [s])
  {
  }

  /** `settings +sync` on its own: the flag is stored as true and nothing is unknown. */
  lemma PlusSyncCommand(st: Scan)
    ensures ApplySettingTokens(st, Tokens("+sync")) == Scan(Some(Yes), if st.game.Some? then Some(Yes) else None, st.unknown)
  {
    SingleToken("+sync");
    PrefixedSyncToken(st, "+sync");
    assert ["+sync"][..0] == [];
  }

  /** `settings -sync` on its own: the flag is stored as false and nothing is unknown. */
  lemma MinusSyncCommand(st: Scan)
    ensures ApplySettingTokens(st, Tokens("-sync")) == Scan(Some(No), if st.game.Some? then Some(No) else None, st.unknown)
  {
    SingleToken("-sync");
    PrefixedSyncToken(st, "-sync");
    assert ["-sync"][..0] == [];
  }
}
