/** How the plugin renders a player for the table and how it lists a player's choices.
    The only rule with substance is which of a player's cards are masked. */
module Rendering {
  import opened Text
  import opened Roles

  /** A face-down card set aside by a role ability: what it really is and what role it
      was claimed to be. */
  datatype SideCard = SideCard(card: Role, claimed: Role)

  /** What `player_info` reads from a player. */
  datatype Player = Player(live: seq<Role>, side: seq<SideCard>, revealed: seq<Role>, coins: nat, influence: nat)

  const Mask: string := "########"

  /** A live card: its role in parentheses, or the mask when secrets are hidden. */
  function LiveCardText(name: Role -> string, role: Role, showSecrets: bool): string {
    "(" + (if showSecrets then name(role) else Mask) + ")"
  }

  /** A side card: its true role in angle brackets, or only the claimed role between
      question marks when secrets are hidden. */
  function SideCardText(name: Role -> string, c: SideCard, showSecrets: bool): string {
    "<" + (if showSecrets then name(c.card) else "??" + name(c.claimed) + "??") + ">"
  }

  /** A revealed card: its role in square brackets, always. */
  function RevealedCardText(name: Role -> string, role: Role): string {
    "[" + name(role) + "]"
  }

  /** `cards`: the live cards, then the side cards, then the revealed cards. */
  function CardTexts(name: Role -> string, p: Player, showSecrets: bool): (r: seq<string>)
    ensures |r| == |p.live| + |p.side| + |p.revealed|
  {
    seq(|p.live|, i requires 0 <= i < |p.live| => LiveCardText(name, p.live[i], showSecrets))
    + seq(|p.side|, i requires 0 <= i < |p.side| => SideCardText(name, p.side[i], showSecrets))
    + seq(|p.revealed|, i requires 0 <= i < |p.revealed| => RevealedCardText(name, p.revealed[i]))
  }

  /** The coins of a player with influence left, otherwise `ELIMINATED`. */
  function Status(p: Player): (r: string)
    ensures r == "ELIMINATED" <==> p.influence == 0
  {
    if p.influence > 0 then
      var r := "Coins: " + Decimal(p.coins);
      assert r[0] != "ELIMINATED"[0];
      r
    else "ELIMINATED"
  }

  /** The player's tokens, capitalized and comma-separated after a dash; empty when none. */
  function TokenText(tokens: seq<string>): (r: string)
    ensures r == "" <==> tokens == []
    ensures tokens != [] ==> |r| >= 3 && r[..3] == " - "
  {
    if tokens == [] then ""
    else " - " + Join(seq(|tokens|, i requires 0 <= i < |tokens| => Capitalize(tokens[i])), ", ")
  }

  /** `player_info`: the cards separated by spaces, then the status and the tokens. The
      line opens with the text of the first live card and ends with the status and the
      token text. */
  function PlayerInfo(name: Role -> string, p: Player, showSecrets: bool, tokens: seq<string>): (r: string)
    ensures |p.live| > 0 ==>
      var first := LiveCardText(name, p.live[0], showSecrets);
      |r| >= |first| && r[..|first|] == first
    ensures var tail := " - " + Status(p) + TokenText(tokens);
      |r| >= |tail| && r[|r| - |tail|..] == tail
  {
    var parts := CardTexts(name, p, showSecrets);
    var cards := Join(parts, " ");
    var tail := " - " + Status(p) + TokenText(tokens);
    if |p.live| > 0 then
      assert parts[0] == LiveCardText(name, p.live[0], showSecrets);
      PrefixKept(cards, tail, parts[0]);
      cards + tail
    else
      PrefixKept(cards, tail, "");
      cards + tail
  }

  /** Appending to a text keeps its prefixes, and the appended part is its suffix. */
  lemma PrefixKept(s: string, tail: string, first: string)
    requires |s| >= |first| && s[..|first|] == first
    ensures (s + tail)[..|first|] == first
    ensures (s + tail)[|s + tail| - |tail|..] == tail
  {
    assert (s + tail)[..|first|] == s[..|first|];
    assert (s + tail)[|s|..] == tail;
  }

  /** The first live card of a player whose secrets are hidden opens the line as the mask. */
  lemma MaskedLineOpensWithMask(name: Role -> string, p: Player, tokens: seq<string>)
    requires |p.live| > 0
    ensures PlayerInfo(name, p, false, tokens)[..10] == "(########)"
  {
    var first := LiveCardText(name, p.live[0], false);
    assert first == "(########)";
  }

  // ---------------------------------------------------------------------------
  // What is shown and what is masked
  // ---------------------------------------------------------------------------

  /** With secrets hidden, every live card reads as the mask and every side card shows
      only its claimed role. */
  lemma HiddenCardsAreMasked(name: Role -> string, p: Player)
    ensures forall i :: 0 <= i < |p.live| ==> CardTexts(name, p, false)[i] == "(" + Mask + ")"
    ensures forall i :: 0 <= i < |p.side| ==>
      CardTexts(name, p, false)[|p.live| + i] == "<??" + name(p.side[i].claimed) + "??>"
  {
    var r := CardTexts(name, p, false);
    forall i | 0 <= i < |p.side|
      ensures r[|p.live| + i] == "<??" + name(p.side[i].claimed) + "??>"
    {
      assert r[|p.live| + i] == SideCardText(name, p.side[i], false);
    }
  }

  /** With secrets shown, live and side cards show their true roles. */
  lemma SecretsShowTrueRoles(name: Role -> string, p: Player)
    ensures forall i :: 0 <= i < |p.live| ==> CardTexts(name, p, true)[i] == "(" + name(p.live[i]) + ")"
    ensures forall i :: 0 <= i < |p.side| ==> CardTexts(name, p, true)[|p.live| + i] == "<" + name(p.side[i].card) + ">"
  {
    var r := CardTexts(name, p, true);
    forall i | 0 <= i < |p.side|
      ensures r[|p.live| + i] == "<" + name(p.side[i].card) + ">"
    {
      assert r[|p.live| + i] == SideCardText(name, p.side[i], true);
    }
  }

  /** Revealed cards show their role whether or not secrets are shown. */
  lemma RevealedCardsAlwaysShown(name: Role -> string, p: Player, showSecrets: bool)
    ensures forall i :: 0 <= i < |p.revealed| ==>
      CardTexts(name, p, showSecrets)[|p.live| + |p.side| + i] == "[" + name(p.revealed[i]) + "]"
  {
    var r := CardTexts(name, p, showSecrets);
    forall i | 0 <= i < |p.revealed|
      ensures r[|p.live| + |p.side| + i] == "[" + name(p.revealed[i]) + "]"
    {
      assert r[|p.live| + |p.side| + i] == RevealedCardText(name, p.revealed[i]);
    }
  }

  /** Two players who differ only in hidden information look the same with secrets
      hidden: the roles of live cards and the true roles of side cards do not leak. */
  lemma HiddenInfoDoesNotLeak(name: Role -> string, p: Player, q: Player, tokens: seq<string>)
    requires |p.live| == |q.live|
    requires |p.side| == |q.side|
    requires forall i :: 0 <= i < |p.side| ==> p.side[i].claimed == q.side[i].claimed
    requires p.revealed == q.revealed && p.coins == q.coins && p.influence == q.influence
    ensures PlayerInfo(name, p, false, tokens) == PlayerInfo(name, q, false, tokens)
  {
    HiddenCardTextsAgree(name, p, q);
  }

  /** The card texts of two such players agree position by position. */
  lemma HiddenCardTextsAgree(name: Role -> string, p: Player, q: Player)
    requires |p.live| == |q.live|
    requires |p.side| == |q.side|
    requires forall i :: 0 <= i < |p.side| ==> p.side[i].claimed == q.side[i].claimed
    requires p.revealed == q.revealed
    ensures CardTexts(name, p, false) == CardTexts(name, q, false)
  {
    var a, b := CardTexts(name, p, false), CardTexts(name, q, false);
    forall k | 0 <= k < |a| ensures a[k] == b[k] {
      if |p.live| <= k < |p.live| + |p.side| {
        var i := k - |p.live|;
        assert a[k] == SideCardText(name, p.side[i], false);
        assert b[k] == SideCardText(name, q.side[i], false);
      } else if |p.live| + |p.side| <= k {
        var i := k - |p.live| - |p.side|;
        assert a[k] == RevealedCardText(name, p.revealed[i]);
        assert b[k] == RevealedCardText(name, q.revealed[i]);
      }
    }
  }

  /** A player is shown as eliminated exactly when no influence is left; otherwise the
      status is `Coins: ` followed by the decimal digits of the coin count. */
  lemma StatusShowsCoinsOnlyWhileAlive(p: Player)
    ensures Status(p) == "ELIMINATED" <==> p.influence == 0
    ensures p.influence > 0 ==>
      && Status(p)[..7] == "Coins: "
      && (forall i :: 7 <= i < |Status(p)| ==> IsDigit(Status(p)[i]))
      && DigitsValue(Status(p)[7..]) == p.coins
  {
    if p.influence > 0 {
      var s := Status(p);
      DecimalRoundTrip(p.coins);
      assert s[7..] == Decimal(p.coins);
      assert s[0] == 'C';
    }
  }

  // ---------------------------------------------------------------------------
  // Choice explanations
  // ---------------------------------------------------------------------------

  /** One entry of a player's choice explanations. */
  datatype Explanation = Explanation(choice: string, description: string, available: bool, whyUnavailable: string)

  /** The entries whose availability is `available`, in their original order. */
  function Select(es: seq<Explanation>, available: bool): (r: seq<Explanation>)
    ensures |r| <= |es|
    ensures forall i :: 0 <= i < |r| ==> r[i].available == available
    decreases |es|
  {
    if |es| == 0 then []
    else
      var rest := Select(es[..|es| - 1], available);
      if es[|es| - 1].available == available then rest + [es[|es| - 1]] else rest
  }

  /** `partition`: every entry lands in exactly one of the two parts. */
  lemma {:induction false} PartitionIsComplete(es: seq<Explanation>)
    ensures multiset(Select(es, true)) + multiset(Select(es, false)) == multiset(es)
    decreases |es|
  {
    if |es| > 0 {
      var init := es[..|es| - 1];
      PartitionIsComplete(init);
      assert es == init + [es[|es| - 1]];
    }
  }

  /** Some entry is unavailable exactly when the unavailable part is non-empty. */
  lemma {:induction false} UnavailablePartNonEmpty(es: seq<Explanation>)
    ensures Select(es, false) != [] <==> exists i :: 0 <= i < |es| && !es[i].available
    decreases |es|
  {
    if |es| > 0 {
      var init := es[..|es| - 1];
      UnavailablePartNonEmpty(init);
      if exists i :: 0 <= i < |init| && !init[i].available {
        var i :| 0 <= i < |init| && !init[i].available;
        assert !es[i].available;
      }
      if exists i :: 0 <= i < |es| && !es[i].available {
        var i :| 0 <= i < |es| && !es[i].available;
        if i < |init| {
          assert !init[i].available;
        }
      }
    }
  }

  function AvailableText(e: Explanation): string {
    "[" + e.choice + ": " + e.description + "]"
  }

  function UnavailableText(e: Explanation): string {
    "[" + e.choice + ": " + e.description + " - " + e.whyUnavailable + "]"
  }

  /** `send_choice_explanations`: the messages sent to the player. The available choices
      are always sent; the unavailable ones follow, with their reasons, only when asked
      for and only when there are some. */
  function ChoiceMessages(es: seq<Explanation>, showUnavailable: bool): (msgs: seq<string>)
    ensures |msgs| == (if showUnavailable && exists i :: 0 <= i < |es| && !es[i].available then 2 else 1)
  {
    UnavailablePartNonEmpty(es);
    var available, unavailable := Select(es, true), Select(es, false);
    var first := Join(seq(|available|, i requires 0 <= i < |available| => AvailableText(available[i])), " ");
    if !showUnavailable || unavailable == [] then [first]
    else [first, "Unavailable: " + Join(seq(|unavailable|, i requires 0 <= i < |unavailable| => UnavailableText(unavailable[i])), " ")]
  }
}
