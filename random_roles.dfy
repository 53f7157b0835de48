/** The `roles random <spec>` command: a chooser picks one not-yet-chosen role per
    group letter of the specification, filtered by group and by tier. */
module RandomRoles {
  import opened Wrappers
  import opened Text
  import opened Roles
  import opened Room

  /** The group a picking letter asks for; `AnyGroup` is `:all`. */
  datatype GroupFilter = AnyGroup | InGroup(group: Group)

  /** The chooser's two tier flags, `@advanced_only` and `@basic_only`. */
  datatype Flags = Flags(advancedOnly: bool, basicOnly: bool)

  /** What one character of the specification does, read case-insensitively. */
  datatype CharAction = MakeAdvancedOnly | MakeBasicOnly | PickFrom(filter: GroupFilter) | Ignore

  /** The character dispatch of `random_roles`; letters are read case-insensitively. */
  function ActionOf(c: char): (a: CharAction)
    ensures a == MakeAdvancedOnly <==> c == '+'
    ensures a == MakeBasicOnly <==> c == '-'
    ensures a == PickFrom(InGroup(Communications)) <==> c == 'c' || c == 'C'
    ensures a == PickFrom(InGroup(Finance)) <==> c == '$'
    ensures a == PickFrom(InGroup(Force)) <==> c == 'f' || c == 'F'
    ensures a == PickFrom(InGroup(SpecialInterests)) <==> c == 's' || c == 'S'
    ensures a == PickFrom(AnyGroup) <==> c == 'a' || c == 'A'
  {
    match LowerChar(c)
    case '+' => MakeAdvancedOnly
    case '-' => MakeBasicOnly
    case 'c' => PickFrom(InGroup(Communications))
    case '$' => PickFrom(InGroup(Finance))
    case 'f' => PickFrom(InGroup(Force))
    case 's' => PickFrom(InGroup(SpecialInterests))
    case 'a' => PickFrom(AnyGroup)
    case _ => Ignore
  }

  /** `c.downcase` first: a character and its lower-case form do the same thing. */
  lemma ActionIgnoresCase(c: char)
    ensures ActionOf(c) == ActionOf(LowerChar(c))
  {
  }

  /** Role `r` passes a pick's group filter and tier flags. */
  predicate Fits(all: Catalogue, r: Role, filter: GroupFilter, flags: Flags)
    requires r in all
  {
    && (filter.AnyGroup? || all[r].group == filter.group)
    && (!flags.advancedOnly || all[r].advanced)
    && (!flags.basicOnly || !all[r].advanced)
  }

  /** The roles one pick may add: catalogue roles not chosen yet that fit the group
      filter and the tier flags. */
  function Candidates(all: Catalogue, chosen: seq<Role>, filter: GroupFilter, flags: Flags): (c: set<Role>)
    ensures c <= all.Keys
    ensures forall r :: r in c ==> r !in chosen
    ensures flags.advancedOnly ==> forall r :: r in c ==> all[r].advanced
    ensures flags.basicOnly ==> forall r :: r in c ==> !all[r].advanced
    ensures filter.InGroup? ==> forall r :: r in c ==> all[r].group == filter.group
  {
    set r | r in all && r !in chosen && Fits(all, r, filter, flags)
  }

  /** A tier flag only narrows a pick, and so does a group letter compared with `A`. */
  lemma CandidatesNarrowed(all: Catalogue, chosen: seq<Role>, filter: GroupFilter, flags: Flags)
    ensures Candidates(all, chosen, filter, flags) <= Candidates(all, chosen, filter, Flags(false, false))
    ensures Candidates(all, chosen, filter, flags) <= Candidates(all, chosen, AnyGroup, flags)
  {
  }

  /** One pick: with no candidate the list is unchanged, otherwise exactly one candidate
      is appended. Which one is left open, as `sample` leaves it to chance. */
  ghost predicate PickStep(all: Catalogue, before: seq<Role>, filter: GroupFilter, flags: Flags, after: seq<Role>) {
    if Candidates(all, before, filter, flags) == {} then after == before
    else |after| == |before| + 1 && after[..|before|] == before && after[|before|] in Candidates(all, before, filter, flags)
  }

  /** The flags in force after reading `s`: the last `+` or `-` since the last pick. */
  function FlagsAfter(s: string): (f: Flags)
    ensures !(f.advancedOnly && f.basicOnly)
    decreases |s|
  {
    if |s| == 0 then Flags(false, false)
    else
      match ActionOf(s[|s| - 1])
      case MakeAdvancedOnly => Flags(true, false)
      case MakeBasicOnly => Flags(false, true)
      case PickFrom(_) => Flags(false, false)
      case Ignore => FlagsAfter(s[..|s| - 1])
  }

  /** `roles` is a possible chooser list after reading all of `spec`. */
  ghost predicate Outcome(all: Catalogue, spec: string, roles: seq<Role>)
    decreases |spec|
  {
    if |spec| == 0 then roles == []
    else
      var pre := spec[..|spec| - 1];
      match ActionOf(spec[|spec| - 1])
      case PickFrom(filter) =>
        exists k :: 0 <= k <= |roles| && Outcome(all, pre, roles[..k])
          && PickStep(all, roles[..k], filter, FlagsAfter(pre), roles)
      case _ => Outcome(all, pre, roles)
  }

  /** The number of picking letters in `s`. */
  function PickCount(s: string): (n: nat)
    ensures n <= |s|
    decreases |s|
  {
    if |s| == 0 then 0
    else PickCount(s[..|s| - 1]) + if ActionOf(s[|s| - 1]).PickFrom? then 1 else 0
  }

  /** The positions of the picking letters in `s`. */
  ghost function PickPositions(s: string): set<nat> {
    set k: nat | k < |s| && ActionOf(s[k]).PickFrom?
  }

  /** `PickCount` counts exactly the positions that hold a picking letter. */
  lemma {:induction false} PickCountCountsPickLetters(s: string)
    ensures PickCount(s) == |PickPositions(s)|
    decreases |s|
  {
    if |s| == 0 {
      assert PickPositions(s) == {};
    } else {
      PickCountCountsPickLetters(s[..|s| - 1]);
      PickPositionsSnoc(s);
    }
  }

  /** The picking positions of `s` are those of `s` without its last letter, plus the
      last position when that letter picks. */
  lemma PickPositionsSnoc(s: string)
    requires |s| > 0
    ensures |s| - 1 !in PickPositions(s[..|s| - 1])
    ensures PickPositions(s) == PickPositions(s[..|s| - 1])
                                + if ActionOf(s[|s| - 1]).PickFrom? then {|s| - 1} else {}
  {
    var n := |s| - 1;
    var init := s[..n];
    forall k: nat | k < n
      ensures k in PickPositions(s) <==> k in PickPositions(init)
    {
      assert init[k] == s[k];
    }
  }

  /** `Chooser`: the roles picked so far and the two tier flags. */
  class Chooser {
    var roles: seq<Role>
    var advancedOnly: bool
    var basicOnly: bool

    /** The flags exclude each other and no role is chosen twice. */
    ghost predicate Valid()
      reads this
    {
      NoDups(roles) && !(advancedOnly && basicOnly)
    }

    constructor ()
      ensures Valid()
      ensures roles == [] && !advancedOnly && !basicOnly
    {
      roles := [];
      advancedOnly := false;
      basicOnly := false;
    }

    /** `advanced_only!`: the next pick takes advanced roles only. */
    method SetAdvancedOnly()
      requires Valid()
      modifies this
      ensures Valid()
      ensures advancedOnly && !basicOnly && roles == old(roles)
    {
      basicOnly := false;
      advancedOnly := true;
    }

    /** `basic_only!`: the next pick takes basic roles only. */
    method SetBasicOnly()
      requires Valid()
      modifies this
      ensures Valid()
      ensures basicOnly && !advancedOnly && roles == old(roles)
    {
      basicOnly := true;
      advancedOnly := false;
    }

    /** `pick`: appends one candidate if there is any, then clears both flags. */
    method Pick(all: Catalogue, desired: GroupFilter)
      requires Valid()
      modifies this
      ensures Valid()
      ensures !advancedOnly && !basicOnly
      ensures PickStep(all, old(roles), desired, Flags(old(advancedOnly), old(basicOnly)), roles)
    {
      var matching := set r | r in all && r !in roles;
      if desired.InGroup? {
        matching := set r | r in matching && all[r].group == desired.group;
      }
      if advancedOnly {
        matching := set r | r in matching && all[r].advanced;
      }
      if basicOnly {
        matching := set r | r in matching && !all[r].advanced;
      }
      assert matching == Candidates(all, roles, desired, Flags(advancedOnly, basicOnly));
      if matching != {} {
        var r :| r in matching;
        roles := roles + [r];
      }
      advancedOnly := false;
      basicOnly := false;
    }
  }

  /** The character loop of `random_roles`, driving a fresh chooser. */
  method ChooseRoles(all: Catalogue, spec: string) returns (roles: seq<Role>)
    ensures Outcome(all, spec, roles)
  {
    var chooser := new Chooser();
    var i := 0;
    while i < |spec|
      invariant 0 <= i <= |spec|
      invariant chooser.Valid()
      invariant Flags(chooser.advancedOnly, chooser.basicOnly) == FlagsAfter(spec[..i])
      invariant Outcome(all, spec[..i], chooser.roles)
    {
      assert spec[..i + 1][..i] == spec[..i];
      ghost var before := chooser.roles;
      match ActionOf(spec[i]) {
        case MakeAdvancedOnly => chooser.SetAdvancedOnly();
        case MakeBasicOnly => chooser.SetBasicOnly();
        case PickFrom(filter) =>
          chooser.Pick(all, filter);
          assert chooser.roles[..|before|] == before;
        case Ignore =>
      }
      i := i + 1;
    }
    assert spec[..i] == spec;
    roles := chooser.roles;
  }

  /** `random_roles`: a blank specification only explains the letters; otherwise the
      chosen roles replace the waiting room's proposed roles. */
  method RandomRoles(room: WaitingRoom, all: Catalogue, spec: string) returns (replies: seq<Reply>)
    modifies room
    ensures Blank(spec) ==> room.settings == old(room.settings) && replies == [RandomRolesLegend, RandomRolesExamples]
    ensures !Blank(spec) ==>
      && room.settings.sync == old(room.settings.sync)
      && room.settings.roles.Some?
      && Outcome(all, spec, room.settings.roles.value)
      && replies == [NextGameRoles(room.settings.roles.value)]
  {
    if Blank(spec) {
      return [RandomRolesLegend, RandomRolesExamples];
    }
    var roles := ChooseRoles(all, spec);
    room.settings := room.settings.(roles := Some(roles));
    replies := [NextGameRoles(roles)];
  }

  // ---------------------------------------------------------------------------
  // Properties of the chooser's runs
  // ---------------------------------------------------------------------------

  /** Whatever `sample` returns, the chosen roles are distinct catalogue roles, no more
      than there are picking letters. */
  lemma {:induction false} OutcomeIsDistinctAndBounded(all: Catalogue, spec: string, roles: seq<Role>)
    requires Outcome(all, spec, roles)
    ensures NoDups(roles)
    ensures forall i :: 0 <= i < |roles| ==> roles[i] in all
    ensures |roles| <= PickCount(spec)
    decreases |spec|
  {
    if |spec| > 0 {
      var pre := spec[..|spec| - 1];
      match ActionOf(spec[|spec| - 1])
      case PickFrom(filter) =>
        var k :| 0 <= k <= |roles| && Outcome(all, pre, roles[..k])
          && PickStep(all, roles[..k], filter, FlagsAfter(pre), roles);
        OutcomeIsDistinctAndBounded(all, pre, roles[..k]);
        if k < |roles| {
          assert roles == roles[..k] + [roles[k]];
        }
      case _ =>
        OutcomeIsDistinctAndBounded(all, pre, roles);
    }
  }

  /** Some picking letter of `spec` could have taken `r`: `r` has that letter's group, and
      the tier flags in force when the letter was read allow it. */
  ghost predicate TakenByLetter(all: Catalogue, spec: string, r: Role)
    requires r in all
  {
    exists k :: 0 <= k < |spec| && ActionOf(spec[k]).PickFrom? && Fits(all, r, ActionOf(spec[k]).filter, FlagsAfter(spec[..k]))
  }

  /** A letter that could take `r` still could once more characters follow. */
  lemma TakenByLetterExtends(all: Catalogue, pre: string, spec: string, r: Role)
    requires r in all && TakenByLetter(all, pre, r)
    requires |pre| < |spec| && spec[..|pre|] == pre
    ensures TakenByLetter(all, spec, r)
  {
    var k :| 0 <= k < |pre| && ActionOf(pre[k]).PickFrom? && Fits(all, r, ActionOf(pre[k]).filter, FlagsAfter(pre[..k]));
    assert spec[k] == pre[k] && spec[..k] == pre[..k];
  }

  /** A role chosen by the last letter of `spec` was taken by that letter. */
  lemma TakenByLastLetter(all: Catalogue, spec: string, chosen: seq<Role>, r: Role)
    requires |spec| > 0 && ActionOf(spec[|spec| - 1]).PickFrom?
    requires r in Candidates(all, chosen, ActionOf(spec[|spec| - 1]).filter, FlagsAfter(spec[..|spec| - 1]))
    ensures r in all && TakenByLetter(all, spec, r)
  {
    var n := |spec| - 1;
    assert Fits(all, r, ActionOf(spec[n]).filter, FlagsAfter(spec[..n]));
  }

  /** How a run's list arises from a run over the spec without its last character:
      it is that list, or that list plus one candidate of the last (picking) letter. */
  lemma OutcomeLastStep(all: Catalogue, spec: string, roles: seq<Role>) returns (k: nat)
    requires |spec| > 0 && Outcome(all, spec, roles)
    ensures k <= |roles| && Outcome(all, spec[..|spec| - 1], roles[..k])
    ensures k == |roles| || (k == |roles| - 1 && ActionOf(spec[|spec| - 1]).PickFrom?
      && roles[k] in Candidates(all, roles[..k], ActionOf(spec[|spec| - 1]).filter, FlagsAfter(spec[..|spec| - 1])))
  {
    var pre := spec[..|spec| - 1];
    match ActionOf(spec[|spec| - 1]) {
      case PickFrom(filter) =>
        k :| 0 <= k <= |roles| && Outcome(all, pre, roles[..k])
          && PickStep(all, roles[..k], filter, FlagsAfter(pre), roles);
      case _ =>
        k := |roles|;
        assert roles[..k] == roles;
    }
  }

  /** The role at position `j` of a run's list was taken by some picking letter. */
  lemma {:induction false} ChosenRoleFitsItsLetter(all: Catalogue, spec: string, roles: seq<Role>, j: nat)
    requires Outcome(all, spec, roles) && j < |roles|
    ensures roles[j] in all && TakenByLetter(all, spec, roles[j])
    decreases |spec|
  {
    var pre := spec[..|spec| - 1];
    var k := OutcomeLastStep(all, spec, roles);
    if j == k {
      TakenByLastLetter(all, spec, roles[..k], roles[k]);
    } else {
      ChosenRoleFitsItsLetter(all, pre, roles[..k], j);
      TakenByLetterExtends(all, pre, spec, roles[j]);
    }
  }

  /** Every chosen role was taken by some picking letter whose group it has, advanced
      if a `+` came right before that letter and basic if a `-` did. */
  lemma OutcomeRolesFitTheirLetters(all: Catalogue, spec: string, roles: seq<Role>)
    requires Outcome(all, spec, roles)
    ensures forall j :: 0 <= j < |roles| ==> roles[j] in all && TakenByLetter(all, spec, roles[j])
  {
    forall j | 0 <= j < |roles|
      ensures roles[j] in all && TakenByLetter(all, spec, roles[j])
    {
      ChosenRoleFitsItsLetter(all, spec, roles, j);
    }
  }

  /** A tier flag lasts until the next pick and the last `+` or `-` wins: after any
      letter that is not ignored, what came before it no longer matters. */
  lemma {:induction false} FlagsForgetThePast(s: string, c: char, t: string)
    requires !ActionOf(c).Ignore?
    ensures FlagsAfter(s + [c] + t) == FlagsAfter([c] + t)
    decreases |t|
  {
    if |t| == 0 {
      assert (s + [c] + t)[..|s + [c] + t| - 1] == s;
      assert ([c] + t)[..|[c] + t| - 1] == [];
    } else {
      var u, v := s + [c] + t, [c] + t;
      assert u[..|u| - 1] == s + [c] + t[..|t| - 1];
      assert v[..|v| - 1] == [c] + t[..|t| - 1];
      FlagsForgetThePast(s, c, t[..|t| - 1]);
    }
  }

  /** A specification of one picking letter chooses exactly one role when the catalogue
      has a candidate for it, and none otherwise. */
  lemma OneLetterPicksOne(all: Catalogue, spec: string, roles: seq<Role>)
    requires |spec| == 1 && ActionOf(spec[0]).PickFrom?
    requires Outcome(all, spec, roles)
    ensures |roles| == if Candidates(all, [], ActionOf(spec[0]).filter, Flags(false, false)) == {} then 0 else 1
  {
    assert spec[..0] == [];
  }

  /** `+A`-style and `-A`-style specifications: the tier letter restricts the one pick,
      which chooses exactly one role when the catalogue has a candidate of that tier. */
  lemma TierThenLetterPicksOne(all: Catalogue, spec: string, roles: seq<Role>)
    requires |spec| == 2 && (ActionOf(spec[0]).MakeAdvancedOnly? || ActionOf(spec[0]).MakeBasicOnly?)
    requires ActionOf(spec[1]).PickFrom?
    requires Outcome(all, spec, roles)
    ensures |roles| == if Candidates(all, [], ActionOf(spec[1]).filter,
                                     Flags(ActionOf(spec[0]).MakeAdvancedOnly?, ActionOf(spec[0]).MakeBasicOnly?)) == {}
                       then 0 else 1
  {
    var pre := spec[..1];
    assert pre[..0] == [] && pre[0] == spec[0];
    assert !ActionOf(pre[|pre| - 1]).PickFrom?;
    var k :| 0 <= k <= |roles| && Outcome(all, pre, roles[..k])
      && PickStep(all, roles[..k], ActionOf(spec[1]).filter, FlagsAfter(pre), roles);
    assert Outcome(all, pre[..0], roles[..k]);
    assert FlagsAfter(pre) == Flags(ActionOf(spec[0]).MakeAdvancedOnly?, ActionOf(spec[0]).MakeBasicOnly?);
  }
}
