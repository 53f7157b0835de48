/** The `roles +add -remove` command: edits the waiting room's proposed role list. */
module RoleEditing {
  import opened Wrappers
  import opened Text
  import opened Roles
  import opened Lists
  import opened Room

  /** The role list being edited and the names of unknown roles met so far. */
  datatype Edit = Edit(roles: seq<Role>, unknown: seq<string>)

  /** `settings[:roles] || DEFAULT_ROLES.dup`: the list an edit starts from. A stored
      empty list is kept (an empty array is not nil). */
  function StartingRoles(settings: Settings): (r: seq<Role>)
    ensures settings.roles.None? ==> |r| == 5 && NoDups(r)
    ensures settings.roles.Some? ==> r == settings.roles.value
  {
    match settings.roles
    case Some(roles) => roles
    case None => DefaultRoles
  }

  /** The effect of one token: `+name` appends the catalogue role whose name is the
      lower-cased `name`, or records that name as unknown; `-name` removes every
      occurrence of the lower-cased `name`; anything else is ignored. */
  function ApplyRoleToken(all: Catalogue, e: Edit, s: string): (r: Edit)
    ensures r.roles == e.roles || r.unknown == e.unknown
    ensures r.unknown == e.unknown || (|s| > 0 && r.unknown == e.unknown + [Lower(s[1..])])
    ensures r.unknown != e.unknown ==> |s| > 0 && s[0] == '+' && Lower(s[1..]) !in all
    ensures |r.roles| <= |e.roles| + 1
  {
    if |s| > 0 && s[0] == '+' then
      var rest := Lower(s[1..]);
      if rest in all then e.(roles := e.roles + [rest]) else e.(unknown := e.unknown + [rest])
    else if |s| > 0 && s[0] == '-' then
      e.(roles := Without(e.roles, Lower(s[1..])))
    else
      e
  }

  /** The tokens applied left to right. */
  function ApplyRoleTokens(all: Catalogue, e: Edit, tokens: seq<string>): Edit
    decreases |tokens|
  {
    if |tokens| == 0 then e
    else ApplyRoleToken(all, ApplyRoleTokens(all, e, tokens[..|tokens| - 1]), tokens[|tokens| - 1])
  }

  /** What `set_roles` leaves behind for a specification: nothing for a blank one, otherwise
      the de-duplicated role list it stores and the unknown names it reports. */
  function RolesAfter(all: Catalogue, settings: Settings, spec: string): (r: Option<Edit>)
    ensures r.None? <==> Blank(spec)
    ensures r.Some? ==> NoDups(r.value.roles)
  {
    if Blank(spec) then None
    else
      var e := ApplyRoleTokens(all, Edit(StartingRoles(settings), []), Tokens(spec));
      Some(Edit(Dedup(e.roles), e.unknown))
  }

  /** The token loop of `set_roles`, on a local copy of the list. */
  method EditRoles(all: Catalogue, start: seq<Role>, spec: string) returns (roles: seq<Role>, unknown: seq<string>)
    ensures Edit(roles, unknown) == ApplyRoleTokens(all, Edit(start, []), Tokens(spec))
  {
    var tokens := Tokens(spec);
    roles, unknown := start, [];
    var i := 0;
    while i < |tokens|
      invariant 0 <= i <= |tokens|
      invariant Edit(roles, unknown) == ApplyRoleTokens(all, Edit(start, []), tokens[..i])
    {
      var s := tokens[i];
      if s[0] == '+' {
        var rest := Lower(s[1..]);
        if rest in all {
          roles := roles + [rest];
        } else {
          unknown := unknown + [rest];
        }
      } else if s[0] == '-' {
        var rest := Lower(s[1..]);
        roles := Without(roles, rest);
      }
      assert tokens[..i + 1][..i] == tokens[..i];
      i := i + 1;
    }
    assert tokens[..i] == tokens;
  }

  /** `set_roles`: a blank specification does nothing; otherwise the edited, de-duplicated
      list is stored in the waiting room, after a complaint about unknown names if any. */
  method SetRoles(room: WaitingRoom, all: Catalogue, spec: string) returns (replies: seq<Reply>)
    modifies room
    ensures Blank(spec) ==> room.settings == old(room.settings) && replies == []
    ensures !Blank(spec) ==>
      var e := RolesAfter(all, old(room.settings), spec).value;
      && room.settings == old(room.settings).(roles := Some(e.roles))
      && replies == (if e.unknown == [] then [] else [UnknownRoles(e.unknown)]) + [NextGameRoles(e.roles)]
  {
    if Blank(spec) {
      return [];
    }
    var roles, unknown := EditRoles(all, StartingRoles(room.settings), spec);
    replies := if unknown == [] then [] else [UnknownRoles(unknown)];
    roles := Dedup(roles);
    room.settings := room.settings.(roles := Some(roles));
    replies := replies + [NextGameRoles(roles)];
  }

  // ---------------------------------------------------------------------------
  // Properties of the edit
  // ---------------------------------------------------------------------------

  /** Every role in the list was there at the start or is in the catalogue, and every
      name reported as unknown is outside the catalogue. */
  ghost predicate WithinCatalogue(all: Catalogue, start: seq<Role>, e: Edit) {
    && (forall i :: 0 <= i < |e.roles| ==> e.roles[i] in start || e.roles[i] in all)
    && (forall i :: 0 <= i < |e.unknown| ==> e.unknown[i] !in all)
  }

  /** Editing never brings in a role from outside the start list and the catalogue, and
      reports as unknown only names outside the catalogue. */
  lemma {:induction false} EditStaysWithinCatalogue(all: Catalogue, start: seq<Role>, tokens: seq<string>)
    ensures WithinCatalogue(all, start, ApplyRoleTokens(all, Edit(start, []), tokens))
    decreases |tokens|
  {
    if |tokens| > 0 {
      var pre := tokens[..|tokens| - 1];
      EditStaysWithinCatalogue(all, start, pre);
      var p := ApplyRoleTokens(all, Edit(start, []), pre);
      var s := tokens[|tokens| - 1];
      var e := ApplyRoleToken(all, p, s);
      assert e == ApplyRoleTokens(all, Edit(start, []), tokens);
      if |s| > 0 && s[0] == '+' {
        var rest := Lower(s[1..]);
        if rest in all {
          assert e == Edit(p.roles + [rest], p.unknown);
          forall i | 0 <= i < |e.roles| ensures e.roles[i] in start || e.roles[i] in all {
            if i < |p.roles| {
              assert e.roles[i] == p.roles[i];
            }
          }
        } else {
          assert e == Edit(p.roles, p.unknown + [rest]);
        }
      } else if |s| > 0 && s[0] == '-' {
        var rest := Lower(s[1..]);
        assert e == Edit(Without(p.roles, rest), p.unknown);
        WithoutMembers(p.roles, rest);
        forall i | 0 <= i < |e.roles| ensures e.roles[i] in start || e.roles[i] in all {
          assert e.roles[i] in e.roles;
          var j :| 0 <= j < |p.roles| && p.roles[j] == e.roles[i];
        }
      }
    }
  }

  /** What `set_roles` stores for a non-blank specification has no duplicates and holds
      only roles from the starting list or the catalogue; the names it reports as unknown
      are outside the catalogue. */
  lemma StoredRolesAreDistinctAndKnown(all: Catalogue, settings: Settings, spec: string)
    requires !Blank(spec)
    ensures RolesAfter(all, settings, spec).Some?
    ensures NoDups(RolesAfter(all, settings, spec).value.roles)
    ensures WithinCatalogue(all, StartingRoles(settings), RolesAfter(all, settings, spec).value)
  {
    var start, tokens := StartingRoles(settings), Tokens(spec);
    EditStaysWithinCatalogue(all, start, tokens);
    var e := ApplyRoleTokens(all, Edit(start, []), tokens);
    var d := Dedup(e.roles);
    assert RolesAfter(all, settings, spec) == Some(Edit(d, e.unknown));
    forall i | 0 <= i < |d| ensures d[i] in start || d[i] in all {
      assert d[i] in d;
      var j :| 0 <= j < |e.roles| && e.roles[j] == d[i];
    }
  }

  /** A blank specification stores nothing. */
  lemma BlankSpecStoresNothing(all: Catalogue, settings: Settings, spec: string)
    requires Blank(spec)
    ensures RolesAfter(all, settings, spec) == None
  {
  }

  /** `+name` for a catalogue role appends it at the end and reports nothing, whatever the
      list holds. De-duplication then adds the role after the old list's first occurrences
      only when it was missing; on a duplicate-free list that is the old list, or the old
      list plus the role. */
  lemma {:induction false} AddKnownRole(all: Catalogue, e: Edit, name: string)
    requires Lower(name) in all
    ensures ApplyRoleToken(all, e, "+" + name) == Edit(e.roles + [Lower(name)], e.unknown)
    ensures Dedup(ApplyRoleToken(all, e, "+" + name).roles)
         == if Lower(name) in e.roles then Dedup(e.roles) else Dedup(e.roles) + [Lower(name)]
    ensures Lower(name) in Dedup(ApplyRoleToken(all, e, "+" + name).roles)
    ensures NoDups(e.roles) ==>
      Dedup(ApplyRoleToken(all, e, "+" + name).roles) == if Lower(name) in e.roles then e.roles else e.roles + [Lower(name)]
    ensures NoDups(e.roles) ==>
      |Dedup(ApplyRoleToken(all, e, "+" + name).roles)| == if Lower(name) in e.roles then |e.roles| else |e.roles| + 1
  {
    var n := Lower(name);
    assert ("+" + name)[1..] == name;
    var s := e.roles + [n];
    assert s[..|s| - 1] == e.roles;
    if NoDups(e.roles) {
      DedupOfDistinct(e.roles);
    }
  }

  /** `+name` for a name outside the catalogue leaves the list alone and records the
      lower-cased name as unknown. */
  lemma AddUnknownRole(all: Catalogue, e: Edit, name: string)
    requires Lower(name) !in all
    ensures ApplyRoleToken(all, e, "+" + name) == Edit(e.roles, e.unknown + [Lower(name)])
  {
    assert ("+" + name)[1..] == name;
  }

  /** `-name` removes exactly the roles equal to the lower-cased name: everything else
      stays, an absent name changes nothing, and it is never reported as unknown. */
  lemma RemoveRole(all: Catalogue, e: Edit, name: string)
    ensures ApplyRoleToken(all, e, "-" + name).unknown == e.unknown
    ensures forall x :: x in ApplyRoleToken(all, e, "-" + name).roles <==> x in e.roles && x != Lower(name)
    ensures Lower(name) !in e.roles ==> ApplyRoleToken(all, e, "-" + name).roles == e.roles
    ensures NoDups(e.roles) && Lower(name) in e.roles ==> |ApplyRoleToken(all, e, "-" + name).roles| == |e.roles| - 1
  {
    assert ("-" + name)[1..] == name;
    WithoutMembers(e.roles, Lower(name));
    if Lower(name) !in e.roles {
      WithoutAbsent(e.roles, Lower(name));
    }
  }

  /** A token that starts with neither `+` nor `-` changes nothing. */
  lemma OtherTokenIgnored(all: Catalogue, e: Edit, s: string)
    requires |s| > 0 && s[0] != '+' && s[0] != '-'
    ensures ApplyRoleToken(all, e, s) == e
  {
  }

  // ---------------------------------------------------------------------------
  // Whole commands of one token
  // ---------------------------------------------------------------------------

  /** No character of `name` is a space, so `<sign><name>` is one token. */
  predicate IsWord(name: string) {
    forall i :: 0 <= i < |name| ==> !IsSpace(name[i])
  }

  /** A specification that is one word is one token, applied to the starting list. */
  lemma {:induction false} OneWordCommand(all: Catalogue, settings: Settings, spec: string)
    requires |spec| > 0 && IsWord(spec) && spec[0] != '\0'
    ensures RolesAfter(all, settings, spec)
         == Some(Edit(Dedup(ApplyRoleToken(all, Edit(StartingRoles(settings), []), spec).roles),
                      ApplyRoleToken(all, Edit(StartingRoles(settings), []), spec).unknown))
  {
    assert !Blank(spec) by {
      assert !IsSpace(spec[0]) && spec[0] != '\0';
    }
    SingleToken(spec);
    var e := Edit(StartingRoles(settings), []);
    assert [spec][..0] == [];
    assert ApplyRoleTokens(all, e, [spec]) == ApplyRoleToken(all, e, spec);
  }

  /** `roles +name` for a supported role on a duplicate-free list: the stored list is the
      starting one, with the role added at the end when it was missing; nothing is unknown. */
  lemma AddCommandKnown(all: Catalogue, settings: Settings, name: string)
    requires IsWord(name) && Lower(name) in all
    requires NoDups(StartingRoles(settings))
    ensures RolesAfter(all, settings, "+" + name).Some?
    ensures Lower(name) in RolesAfter(all, settings, "+" + name).value.roles
    ensures |RolesAfter(all, settings, "+" + name).value.roles|
         == |StartingRoles(settings)| + (if Lower(name) in StartingRoles(settings) then 0 else 1)
    ensures RolesAfter(all, settings, "+" + name).value.unknown == []
    ensures RolesAfter(all, settings, "+" + name).value.roles
         == if Lower(name) in StartingRoles(settings) then StartingRoles(settings)
            else StartingRoles(settings) + [Lower(name)]
  {
    OneWordCommand(all, settings, "+" + name);
    AddKnownRole(all, Edit(StartingRoles(settings), []), name);
  }

  /** `roles +name` for an unsupported name on a duplicate-free list: the list is kept
      and the lower-cased name is reported. */
  lemma AddCommandUnknown(all: Catalogue, settings: Settings, name: string)
    requires IsWord(name) && Lower(name) !in all
    requires NoDups(StartingRoles(settings))
    ensures RolesAfter(all, settings, "+" + name) == Some(Edit(StartingRoles(settings), [Lower(name)]))
  {
    var start := StartingRoles(settings);
    OneWordCommand(all, settings, "+" + name);
    AddUnknownRole(all, Edit(start, []), name);
    var e := ApplyRoleToken(all, Edit(start, []), "+" + name);
    assert e == Edit(start, [Lower(name)]);
    DedupOfDistinct(start);
    assert Dedup(e.roles) == start;
  }

  /** `roles -name` on a duplicate-free list: the stored list is the starting one without
      the lower-cased name, the other roles kept in order; one role fewer if it was there and
      the same list if it was not; nothing is unknown. */
  lemma RemoveCommand(all: Catalogue, settings: Settings, name: string)
    requires IsWord(name)
    requires NoDups(StartingRoles(settings))
    ensures RolesAfter(all, settings, "-" + name).Some?
    ensures Lower(name) !in RolesAfter(all, settings, "-" + name).value.roles
    ensures Lower(name) in StartingRoles(settings)
        ==> |RolesAfter(all, settings, "-" + name).value.roles| == |StartingRoles(settings)| - 1
    ensures Lower(name) !in StartingRoles(settings)
        ==> RolesAfter(all, settings, "-" + name).value.roles == StartingRoles(settings)
    ensures RolesAfter(all, settings, "-" + name).value.unknown == []
    ensures RolesAfter(all, settings, "-" + name).value.roles == Without(StartingRoles(settings), Lower(name))
  {
    var start, n := StartingRoles(settings), Lower(name);
    OneWordCommand(all, settings, "-" + name);
    assert ("-" + name)[1..] == name;
    var e := ApplyRoleToken(all, Edit(start, []), "-" + name);
    assert e == Edit(Without(start, n), []);
    NoDupsKeptByWithout(start, n);
    DedupOfDistinct(e.roles);
    assert RolesAfter(all, settings, "-" + name) == Some(e);
    WithoutMembers(start, n);
    if n !in start {
      WithoutAbsent(start, n);
    }
  }

  // ---------------------------------------------------------------------------
  // The command's outcomes on the default list
  // ---------------------------------------------------------------------------

  /** `roles +lawyer` proposes six roles when lawyer is a supported role. */
  lemma AddLawyerGivesSix(all: Catalogue)
    requires "lawyer" in all
    ensures RolesAfter(all, Settings(None, None), "+lawyer").Some?
    ensures |RolesAfter(all, Settings(None, None), "+lawyer").value.roles| == 6
    ensures RolesAfter(all, Settings(None, None), "+lawyer").value.unknown == []
  {
    var name := "lawyer";
    LowerOfLower(name);
    assert name !in DefaultRoles;
    assert "+lawyer" == "+" + name;
    AddCommandKnown(all, Settings(None, None), name);
  }

  /** `roles +banker` keeps five roles whether or not banker is a supported role. */
  lemma AddBankerKeepsFive(all: Catalogue)
    ensures RolesAfter(all, Settings(None, None), "+banker").Some?
    ensures |RolesAfter(all, Settings(None, None), "+banker").value.roles| == 5
  {
    var name := "banker";
    LowerOfLower(name);
    assert name == DefaultRoles[0];
    assert "+banker" == "+" + name;
    if name in all {
      AddCommandKnown(all, Settings(None, None), name);
    } else {
      AddCommandUnknown(all, Settings(None, None), name);
    }
  }

  /** `roles +nonsense` reports the name as unknown and keeps the default roles. */
  lemma AddNonsenseIsUnknown(all: Catalogue)
    requires "nonsense" !in all
    ensures RolesAfter(all, Settings(None, None), "+nonsense") == Some(Edit(DefaultRoles, ["nonsense"]))
  {
    var name := "nonsense";
    LowerOfLower(name);
    assert "+nonsense" == "+" + name;
    AddCommandUnknown(all, Settings(None, None), name);
  }

  /** `roles -banker` leaves the four other default roles. */
  lemma RemoveBankerGivesFour(all: Catalogue)
    ensures RolesAfter(all, Settings(None, None), "-banker").Some?
    ensures |RolesAfter(all, Settings(None, None), "-banker").value.roles| == 4
    ensures "banker" !in RolesAfter(all, Settings(None, None), "-banker").value.roles
    ensures RolesAfter(all, Settings(None, None), "-banker").value.unknown == []
  {
    var name := "banker";
    LowerOfLower(name);
    assert name == DefaultRoles[0];
    assert "-banker" == "-" + name;
    RemoveCommand(all, Settings(None, None), name);
  }

  /** `roles -nonsejse` removes nothing and reports nothing. */
  lemma RemoveAbsentKeepsFive(all: Catalogue)
    ensures RolesAfter(all, Settings(None, None), "-nonsejse") == Some(Edit(DefaultRoles, []))
  {
    var name := "nonsejse";
    LowerOfLower(name);
    assert name !in DefaultRoles;
    assert "-nonsejse" == "-" + name;
    RemoveCommand(all, Settings(None, None), name);
  }
}
