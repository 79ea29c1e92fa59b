/** The ICC ODI player performance analyser: ten teams, each with a linked list of
    its players (newest first), and one list per role threading the same players.
    Lists are sequences whose first element is the list head. Batting and bowling
    figures and the performance index are floating point and are not part of this
    model; a player is its id, name, team name and role. */
module Players {
  import opened CType

  const MAX_TEAMS: nat := 10
  /** The size of the name buffers: names keep at most 50 characters. */
  const MAX_NAME_LENGTH: nat := 51
  const MAX_PLAYERS_PER_TEAM: nat := 50

  datatype Role = Unknown | Batsman | Bowler | AllRounder

  /** The role's slot in `roleListHeads` (the enum value). */
  function RoleIndex(r: Role): (k: nat)
    ensures k < 4
  {
    match r
    case Unknown => 0
    case Batsman => 1
    case Bowler => 2
    case AllRounder => 3
  }

  function RoleAt(k: nat): (r: Role)
    requires k < 4
    ensures RoleIndex(r) == k
  {
    if k == 0 then Unknown else if k == 1 then Batsman else if k == 2 then Bowler else AllRounder
  }

  datatype Player = Player(id: int, name: string, team: string, role: Role)

  datatype Team = Team(id: int, name: string, totalPlayers: int, players: seq<Player>)

  /** The team table and the four role lists (indexed by `RoleIndex`). */
  datatype League = League(teams: seq<Team>, byRole: seq<seq<Player>>)

  // ---------------------------------------------------------------------------
  // Roles
  // ---------------------------------------------------------------------------

  /** The three spellings of all-rounder, compared ignoring case. */
  predicate AllRounderSpelling(t: string) {
    EqualIgnoringCase(t, "All-rounder") || EqualIgnoringCase(t, "Allrounder")
    || EqualIgnoringCase(t, "All Rounder")
  }

  /** `convertRoleStringToEnum`: NULL is unknown; "Batsman", "Bowler" and the three
      spellings of all-rounder are recognised ignoring case; anything else is unknown. */
  function ParseRole(s: Option<string>): (r: Role)
    ensures s == None ==> r == Unknown
    ensures s.Some? && EqualIgnoringCase(s.value, "Batsman") ==> r == Batsman
    ensures s.Some? && EqualIgnoringCase(s.value, "Bowler") ==> r == Bowler
    ensures s.Some? && AllRounderSpelling(s.value) ==> r == AllRounder
    ensures r == Unknown <==>
      s == None || (!EqualIgnoringCase(s.value, "Batsman") && !EqualIgnoringCase(s.value, "Bowler")
        && !AllRounderSpelling(s.value))
  {
    if s == None then Unknown
    else if EqualIgnoringCase(s.value, "Batsman") then Batsman
    else if EqualIgnoringCase(s.value, "Bowler") then Bowler
    else if AllRounderSpelling(s.value) then AllRounder
    else Unknown
  }

  /** The role as the listings print it; an unknown role prints as an all-rounder. */
  function RoleName(r: Role): string {
    match r
    case Batsman => "Batsman"
    case Bowler => "Bowler"
    case _ => "All-rounder"
  }

  /** A printed role reads back as the same role. */
  lemma RoleNameParses(r: Role)
    requires r != Unknown
    ensures ParseRole(Some(RoleName(r))) == r
  {
    if r == AllRounder {
      assert !EqualIgnoringCase("All-rounder", "Batsman");
      assert !EqualIgnoringCase("All-rounder", "Bowler");
      assert EqualIgnoringCase("All-rounder", "All-rounder");
    } else if r == Bowler {
      assert !EqualIgnoringCase("Bowler", "Batsman");
    }
  }

  lemma {:induction false} CaseInsensitiveTransitive(a: string, b: string, c: string)
    requires EqualIgnoringCase(a, b)
    ensures EqualIgnoringCase(a, c) <==> EqualIgnoringCase(b, c)
  {
  }

  /** The parse ignores case: two spellings that differ only in case give the same role. */
  lemma ParseRoleIgnoresCase(a: string, b: string)
    requires EqualIgnoringCase(a, b)
    ensures ParseRole(Some(a)) == ParseRole(Some(b))
  {
    CaseInsensitiveTransitive(a, b, "Batsman");
    CaseInsensitiveTransitive(a, b, "Bowler");
    CaseInsensitiveTransitive(a, b, "All-rounder");
    CaseInsensitiveTransitive(a, b, "Allrounder");
    CaseInsensitiveTransitive(a, b, "All Rounder");
  }

  /** A role text that matches none of the five spellings is unknown. */
  lemma UnrecognisedRole(s: string)
    requires !EqualIgnoringCase(s, "Batsman") && !EqualIgnoringCase(s, "Bowler")
    requires !EqualIgnoringCase(s, "All-rounder") && !EqualIgnoringCase(s, "Allrounder")
    requires !EqualIgnoringCase(s, "All Rounder")
    ensures ParseRole(Some(s)) == Unknown
  {
  }

  // ---------------------------------------------------------------------------
  // Names
  // ---------------------------------------------------------------------------

  /** The characters `readStringLineStrict` accepts. */
  predicate IsNameChar(c: char) {
    IsAlpha(c) || IsDigit(c) || IsSpace(c) || c == '.' || c == '-'
  }

  /** The scan of `readStringLineStrict`: stops at the first character it refuses. */
  method NameCharsOk(s: string) returns (ok: bool)
    ensures ok <==> forall k :: 0 <= k < |s| ==> IsNameChar(s[k])
  {
    ok := true;
    var i := 0;
    while i < |s|
      invariant 0 <= i <= |s|
      invariant forall k :: 0 <= k < i ==> IsNameChar(s[k])
    {
      if !IsNameChar(s[i]) {
        ok := false;
        break;
      }
      i := i + 1;
    }
  }

  /** A name `readStringLineStrict(prompt, out, maxLength)` can return: 1 to
      maxLength-1 characters, all of them name characters. */
  predicate ValidName(t: string, maxLength: int) {
    1 <= |t| < maxLength && forall k :: 0 <= k < |t| ==> IsNameChar(t[k])
  }

  /** One line as `fgets` delivers it, judged by `readStringLineStrict`: one trailing
      newline is dropped, and the rest is accepted when it is a valid name; otherwise
      the function asks again (None). */
  function AcceptNameLine(line: string, maxLength: int): (r: Option<string>)
    ensures r.Some? ==> ValidName(r.value, maxLength)
    ensures r.Some? ==> line == r.value || line == r.value + "\n"
    ensures r.None? ==> forall t :: ValidName(t, maxLength) ==> line != t + "\n"
    ensures r.None? && (line == [] || line[|line| - 1] != '\n') ==>
      forall t :: ValidName(t, maxLength) ==> line != t
  {
    var buffer := if |line| > 0 && line[|line| - 1] == '\n' then line[..|line| - 1] else line;
    assert forall t :: line == t + "\n" ==> buffer == t;
    if ValidName(buffer, maxLength) then Some(buffer) else None
  }

  /** A valid name typed and ended with a newline is read back unchanged. */
  lemma NameRoundTrip(t: string, maxLength: int)
    requires ValidName(t, maxLength)
    ensures AcceptNameLine(t + "\n", maxLength) == Some(t)
  {
    assert (t + "\n")[..|t|] == t;
  }

  /** The line check as the C function runs it, scanning character by character. */
  method ReadNameLine(line: string, maxLength: int) returns (r: Option<string>)
    ensures r == AcceptNameLine(line, maxLength)
  {
    var buffer := line;
    if |buffer| > 0 && buffer[|buffer| - 1] == '\n' {
      buffer := buffer[..|buffer| - 1];
    }
    if |buffer| < 1 || |buffer| >= maxLength {
      return None;
    }
    var ok := NameCharsOk(buffer);
    if !ok {
      return None;
    }
    return Some(buffer);
  }

  // ---------------------------------------------------------------------------
  // Teams
  // ---------------------------------------------------------------------------

  /** Team ids strictly increase along the table. */
  predicate IdsAscending(teams: seq<Team>) {
    forall i, j :: 0 <= i < j < |teams| ==> teams[i].id < teams[j].id
  }

  /** `initializeTeamInformationArrayAlphabetical`: team i gets id i+1, its name from the
      alphabetical name table (cut to 50 characters), no players. */
  function InitialTeams(names: seq<string>): (teams: seq<Team>)
    requires |names| == MAX_TEAMS
    ensures |teams| == MAX_TEAMS
  {
    seq(MAX_TEAMS, i requires 0 <= i < MAX_TEAMS => Team(i + 1, BoundedCopy(names[i], MAX_NAME_LENGTH), 0, []))
  }

  function InitialLeague(names: seq<string>): League
    requires |names| == MAX_TEAMS
  {
    League(InitialTeams(names), [[], [], [], []])
  }

  /** The initial table is sorted by id, and id k sits at index k-1. */
  lemma InitialLayout(names: seq<string>)
    requires |names| == MAX_TEAMS
    ensures IdsAscending(InitialTeams(names))
    ensures forall k :: 0 <= k < MAX_TEAMS ==> InitialTeams(names)[k].id == k + 1
  {
  }

  /** `findTeamIndexById`: binary search over the table sorted by id; -1 when no team
      has the id. */
  method FindTeamIndexById(teams: seq<Team>, teamId: int) returns (r: int)
    requires IdsAscending(teams)
    ensures -1 <= r < |teams|
    ensures r >= 0 ==> teams[r].id == teamId
    ensures forall i :: 0 <= i < |teams| && teams[i].id == teamId ==> r == i
    ensures r == -1 <==> forall i :: 0 <= i < |teams| ==> teams[i].id != teamId
  {
    var left := 0;
    var right := |teams| - 1;
    while left <= right
      invariant 0 <= left <= |teams| && -1 <= right < |teams| && left <= right + 1
      invariant forall i :: 0 <= i < left ==> teams[i].id < teamId
      invariant forall i :: right < i < |teams| ==> teams[i].id > teamId
      decreases right - left
    {
      var mid := left + (right - left) / 2;
      if teams[mid].id == teamId {
        return mid;
      }
      if teams[mid].id < teamId {
        left := mid + 1;
      } else {
        right := mid - 1;
      }
    }
    return -1;
  }

  /** On the initial table, id k is found at index k-1 and ids outside 1..10 are not
      found. */
  method FindInInitialTable(names: seq<string>, teamId: int) returns (r: int)
    requires |names| == MAX_TEAMS
    ensures 1 <= teamId <= MAX_TEAMS ==> r == teamId - 1
    ensures !(1 <= teamId <= MAX_TEAMS) ==> r == -1
  {
    InitialLayout(names);
    r := FindTeamIndexById(InitialTeams(names), teamId);
    if 1 <= teamId <= MAX_TEAMS {
      assert InitialTeams(names)[teamId - 1].id == teamId;
    }
  }

  /** The first team whose name equals `name` ignoring case, from index i on; -1 if none. */
  function FirstTeamNamed(teams: seq<Team>, name: string, i: nat): (r: int)
    requires i <= |teams|
    ensures r == -1 || i <= r < |teams|
    ensures r >= 0 ==> EqualIgnoringCase(teams[r].name, name)
    ensures r >= 0 ==> forall k :: i <= k < r ==> !EqualIgnoringCase(teams[k].name, name)
    ensures r == -1 <==> forall k :: i <= k < |teams| ==> !EqualIgnoringCase(teams[k].name, name)
    decreases |teams| - i
  {
    if i == |teams| then -1
    else if EqualIgnoringCase(teams[i].name, name) then i
    else FirstTeamNamed(teams, name, i + 1)
  }

  // ---------------------------------------------------------------------------
  // Players and the role lists
  // ---------------------------------------------------------------------------

  /** The players of the list with the given role, in list order. */
  function WithRole(ps: seq<Player>, role: Role): seq<Player> {
    if ps == [] then []
    else (if ps[0].role == role then [ps[0]] else []) + WithRole(ps[1..], role)
  }

  lemma {:induction false} WithRoleAppend(a: seq<Player>, b: seq<Player>, role: Role)
    ensures WithRole(a + b, role) == WithRole(a, role) + WithRole(b, role)
  {
    if a == [] {
      assert a + b == b;
    } else {
      var head := if a[0].role == role then [a[0]] else [];
      assert (a + b)[0] == a[0] && (a + b)[1..] == a[1..] + b;
      assert WithRole(a + b, role) == head + WithRole(a[1..] + b, role);
      WithRoleAppend(a[1..], b, role);
      assert WithRole(a, role) == head + WithRole(a[1..], role);
      assert head + (WithRole(a[1..], role) + WithRole(b, role)) == head + WithRole(a[1..], role) + WithRole(b, role);
    }
  }

  /** Exactly the players of the list with that role. */
  lemma {:induction false} WithRoleMembers(ps: seq<Player>, role: Role)
    ensures forall p :: p in WithRole(ps, role) <==> p in ps && p.role == role
    ensures |WithRole(ps, role)| <= |ps|
  {
    if ps != [] {
      WithRoleMembers(ps[1..], role);
      assert forall p :: p in ps <==> p == ps[0] || p in ps[1..];
    }
  }

  /** The players with the given role over all teams, as a multiset. */
  function RolePlayers(teams: seq<Team>, role: Role): multiset<Player> {
    if teams == [] then multiset{}
    else RolePlayers(teams[..|teams| - 1], role) + multiset(WithRole(teams[|teams| - 1].players, role))
  }

  /** The league's bookkeeping: every team counts its players, every player is filed
      under a team whose name matches its team name, and each role list holds exactly
      the players of that role over all teams. */
  predicate Consistent(l: League) {
    |l.byRole| == 4
    && (forall i :: 0 <= i < |l.teams| ==> l.teams[i].totalPlayers == |l.teams[i].players|)
    && (forall i, k :: 0 <= i < |l.teams| && 0 <= k < |l.teams[i].players| ==>
          EqualIgnoringCase(l.teams[i].players[k].team, l.teams[i].name))
    && (forall k :: 0 <= k < 4 ==> multiset(l.byRole[k]) == RolePlayers(l.teams, RoleAt(k)))
  }

  /** No two filed players share an id. */
  predicate UniqueIds(teams: seq<Team>) {
    forall i1, k1, i2, k2 ::
      0 <= i1 < |teams| && 0 <= k1 < |teams[i1].players| &&
      0 <= i2 < |teams| && 0 <= k2 < |teams[i2].players| &&
      teams[i1].players[k1].id == teams[i2].players[k2].id
      ==> i1 == i2 && k1 == k2
  }

  /** Some filed player has the id. */
  predicate IdTaken(teams: seq<Team>, id: int) {
    exists i, k :: 0 <= i < |teams| && 0 <= k < |teams[i].players| && teams[i].players[k].id == id
  }

  lemma InitialConsistent(names: seq<string>)
    requires |names| == MAX_TEAMS
    ensures Consistent(InitialLeague(names)) && UniqueIds(InitialTeams(names))
  {
    var l := InitialLeague(names);
    forall k | 0 <= k < 4
      ensures multiset(l.byRole[k]) == RolePlayers(l.teams, RoleAt(k))
    {
      NoPlayersNoRoles(l.teams, RoleAt(k));
    }
  }

  lemma {:induction false} NoPlayersNoRoles(teams: seq<Team>, role: Role)
    requires forall i :: 0 <= i < |teams| ==> teams[i].players == []
    ensures RolePlayers(teams, role) == multiset{}
  {
    if teams != [] {
      NoPlayersNoRoles(teams[..|teams| - 1], role);
    }
  }

  /** `isPlayerIdAlreadyPresent`: walks every team's list. */
  method IsPlayerIdPresent(teams: seq<Team>, id: int) returns (found: bool)
    ensures found <==> IdTaken(teams, id)
  {
    var i := 0;
    while i < |teams|
      invariant 0 <= i <= |teams|
      invariant forall a, k :: 0 <= a < i && 0 <= k < |teams[a].players| ==> teams[a].players[k].id != id
    {
      var k := 0;
      while k < |teams[i].players|
        invariant 0 <= k <= |teams[i].players|
        invariant forall b :: 0 <= b < k ==> teams[i].players[b].id != id
      {
        if teams[i].players[k].id == id {
          return true;
        }
        k := k + 1;
      }
      i := i + 1;
    }
    return false;
  }

  /** `insertPlayerIntoTeamAndRoleLists`: the player goes to the front of the first
      team whose name matches its team name ignoring case, that team counts one more
      player, and the player goes to the front of its role list; when no team matches,
      nothing changes. */
  function InsertPlayer(l: League, p: Player): (r: League)
    requires |l.byRole| == 4
    ensures |r.teams| == |l.teams| && |r.byRole| == 4
    ensures FirstTeamNamed(l.teams, p.team, 0) == -1 ==> r == l
    ensures var i := FirstTeamNamed(l.teams, p.team, 0);
      i >= 0 ==>
        && r.teams[i].players == [p] + l.teams[i].players
        && r.teams[i].totalPlayers == l.teams[i].totalPlayers + 1
        && r.teams[i].id == l.teams[i].id && r.teams[i].name == l.teams[i].name
        && (forall j :: 0 <= j < |l.teams| && j != i ==> r.teams[j] == l.teams[j])
        && r.byRole[RoleIndex(p.role)] == [p] + l.byRole[RoleIndex(p.role)]
        && (forall k :: 0 <= k < 4 && k != RoleIndex(p.role) ==> r.byRole[k] == l.byRole[k])
  {
    var i := FirstTeamNamed(l.teams, p.team, 0);
    if i == -1 then l
    else
      var t := l.teams[i];
      var k := RoleIndex(p.role);
      League(l.teams[i := t.(players := [p] + t.players, totalPlayers := t.totalPlayers + 1)],
             l.byRole[k := [p] + l.byRole[k]])
  }

  /** Prepending a player to team i's list adds it to its role's multiset and to no other. */
  lemma {:induction false} RolePlayersPrepend(teams: seq<Team>, i: nat, t: Team, p: Player, role: Role)
    requires i < |teams| && t.players == [p] + teams[i].players
    ensures RolePlayers(teams[i := t], role) ==
      RolePlayers(teams, role) + (if p.role == role then multiset{p} else multiset{})
    decreases |teams|, 1
  {
    if i < |teams| - 1 {
      PrependInEarlierTeam(teams, i, t, p, role);
    } else {
      PrependInLastTeam(teams, t, p, role);
    }
  }

  lemma {:induction false} PrependInEarlierTeam(teams: seq<Team>, i: nat, t: Team, p: Player, role: Role)
    requires i < |teams| - 1 && t.players == [p] + teams[i].players
    ensures RolePlayers(teams[i := t], role) ==
      RolePlayers(teams, role) + (if p.role == role then multiset{p} else multiset{})
    decreases |teams|, 0
  {
    var n := |teams|;
    var u := teams[i := t];
    var extra := if p.role == role then multiset{p} else multiset{};
    var last := multiset(WithRole(teams[n - 1].players, role));
    assert RolePlayers(teams, role) == RolePlayers(teams[..n - 1], role) + last;
    assert u[..n - 1] == teams[..n - 1][i := t];
    assert u[n - 1] == teams[n - 1];
    assert RolePlayers(u, role) == RolePlayers(u[..n - 1], role) + last;
    RolePlayersPrepend(teams[..n - 1], i, t, p, role);
    SwapUnion(RolePlayers(teams[..n - 1], role), extra, last);
  }

  lemma PrependInLastTeam(teams: seq<Team>, t: Team, p: Player, role: Role)
    requires |teams| > 0 && t.players == [p] + teams[|teams| - 1].players
    ensures RolePlayers(teams[|teams| - 1 := t], role) ==
      RolePlayers(teams, role) + (if p.role == role then multiset{p} else multiset{})
  {
    var n := |teams|;
    var u := teams[n - 1 := t];
    var extra := if p.role == role then multiset{p} else multiset{};
    var last := multiset(WithRole(teams[n - 1].players, role));
    assert RolePlayers(teams, role) == RolePlayers(teams[..n - 1], role) + last;
    assert u[..n - 1] == teams[..n - 1];
    PrependWithRole(p, teams[n - 1].players, role);
    assert RolePlayers(u, role) == RolePlayers(teams[..n - 1], role) + extra + last;
    SwapUnion(RolePlayers(teams[..n - 1], role), extra, last);
  }

  lemma PrependWithRole(p: Player, ps: seq<Player>, role: Role)
    ensures multiset(WithRole([p] + ps, role)) ==
      (if p.role == role then multiset{p} else multiset{}) + multiset(WithRole(ps, role))
  {
    assert ([p] + ps)[1..] == ps;
  }

  lemma SwapUnion(a: multiset<Player>, b: multiset<Player>, c: multiset<Player>)
    ensures a + b + c == a + c + b
  {
  }

  /** Inserting keeps each role list equal to the players of that role. */
  lemma InsertKeepsRoleLists(l: League, p: Player)
    requires |l.byRole| == 4
    requires forall k :: 0 <= k < 4 ==> multiset(l.byRole[k]) == RolePlayers(l.teams, RoleAt(k))
    ensures var r := InsertPlayer(l, p);
      forall k :: 0 <= k < 4 ==> multiset(r.byRole[k]) == RolePlayers(r.teams, RoleAt(k))
  {
    var r := InsertPlayer(l, p);
    var i := FirstTeamNamed(l.teams, p.team, 0);
    if i >= 0 {
      forall k | 0 <= k < 4
        ensures multiset(r.byRole[k]) == RolePlayers(r.teams, RoleAt(k))
      {
        assert r.teams == l.teams[i := r.teams[i]];
        RolePlayersPrepend(l.teams, i, r.teams[i], p, RoleAt(k));
      }
    }
  }

  /** Inserting files the player under a team whose name matches, and counts it. */
  lemma InsertKeepsTeams(l: League, p: Player)
    requires |l.byRole| == 4
    requires forall i :: 0 <= i < |l.teams| ==> l.teams[i].totalPlayers == |l.teams[i].players|
    requires forall i, k :: 0 <= i < |l.teams| && 0 <= k < |l.teams[i].players| ==>
      EqualIgnoringCase(l.teams[i].players[k].team, l.teams[i].name)
    ensures var r := InsertPlayer(l, p);
      forall i :: 0 <= i < |r.teams| ==> r.teams[i].totalPlayers == |r.teams[i].players|
    ensures var r := InsertPlayer(l, p);
      forall i, k :: 0 <= i < |r.teams| && 0 <= k < |r.teams[i].players| ==>
        EqualIgnoringCase(r.teams[i].players[k].team, r.teams[i].name)
  {
    var r := InsertPlayer(l, p);
    var i := FirstTeamNamed(l.teams, p.team, 0);
    if i >= 0 {
      forall a, b | 0 <= a < |r.teams| && 0 <= b < |r.teams[a].players|
        ensures EqualIgnoringCase(r.teams[a].players[b].team, r.teams[a].name)
      {
        if a == i && b > 0 {
          assert r.teams[a].players[b] == l.teams[a].players[b - 1];
        }
      }
    }
  }

  /** Inserting keeps the bookkeeping right. */
  lemma InsertKeepsConsistent(l: League, p: Player)
    requires Consistent(l)
    ensures Consistent(InsertPlayer(l, p))
  {
    InsertKeepsRoleLists(l, p);
    InsertKeepsTeams(l, p);
  }

  /** Inserting a player whose id is not taken keeps the ids unique. */
  lemma InsertKeepsIdsUnique(l: League, p: Player)
    requires |l.byRole| == 4 && UniqueIds(l.teams) && !IdTaken(l.teams, p.id)
    ensures UniqueIds(InsertPlayer(l, p).teams)
  {
    var r := InsertPlayer(l, p).teams;
    var i := FirstTeamNamed(l.teams, p.team, 0);
    if i >= 0 {
      forall i1, k1, i2, k2 |
        0 <= i1 < |r| && 0 <= k1 < |r[i1].players| &&
        0 <= i2 < |r| && 0 <= k2 < |r[i2].players| &&
        r[i1].players[k1].id == r[i2].players[k2].id
        ensures i1 == i2 && k1 == k2
      {
        var o1 := if i1 == i then k1 - 1 else k1;
        var o2 := if i2 == i then k2 - 1 else k2;
        if o1 >= 0 {
          assert r[i1].players[k1] == l.teams[i1].players[o1];
        }
        if o2 >= 0 {
          assert r[i2].players[k2] == l.teams[i2].players[o2];
        }
      }
    }
  }

  /** `gatherPlayersOfTeamByRole`: the team's players with the role, in list order, and
      their number. */
  method GatherTeamByRole(team: Team, role: Role) returns (arr: seq<Player>, count: int)
    ensures arr == WithRole(team.players, role) && count == |arr|
  {
    arr := [];
    count := 0;
    var k := 0;
    while k < |team.players|
      invariant 0 <= k <= |team.players|
      invariant arr == WithRole(team.players[..k], role) && count == |arr|
    {
      var cur := team.players[k];
      WithRoleAppend(team.players[..k], [cur], role);
      assert team.players[..k + 1] == team.players[..k] + [cur];
      if cur.role == role {
        arr := arr + [cur];
        count := count + 1;
      }
      k := k + 1;
    }
    assert team.players[..k] == team.players;
  }

  /** `gatherPlayersByRoleGlobal`: every node of the role's list, in list order. */
  method GatherByRole(l: League, role: Role) returns (arr: seq<Player>, count: int)
    requires |l.byRole| == 4
    ensures arr == l.byRole[RoleIndex(role)] && count == |arr|
  {
    var list := l.byRole[RoleIndex(role)];
    arr := [];
    count := 0;
    while count < |list|
      invariant 0 <= count <= |list| && arr == list[..count]
    {
      arr := arr + [list[count]];
      count := count + 1;
    }
    assert list[..count] == list;
  }

  /** In a consistent league the global gathering yields, counted with multiplicity,
      exactly the players of that role over all teams. */
  lemma GatherByRoleIsAllOfRole(l: League, role: Role)
    requires Consistent(l)
    ensures multiset(l.byRole[RoleIndex(role)]) == RolePlayers(l.teams, role)
  {
    assert RoleAt(RoleIndex(role)) == role;
  }

  // ---------------------------------------------------------------------------
  // Adding a player
  // ---------------------------------------------------------------------------

  datatype AddOutcome = TeamNotFound | TeamFull | DuplicateId | Added

  /** `menuAddNewPlayerToTeam` after its prompts: the team is looked up by id, a team with
      MAX_PLAYERS_PER_TEAM players is refused, an id already filed is refused (the menu
      asks again), otherwise the player is filed under the team's own name. The stored
      name is cut to the MAX_NAME_LENGTH - 1 characters `createPlayerNode` copies; the
      menu reads at most that many, so the cut only matters to other callers. */
  method AddPlayer(l: League, teamId: int, id: int, name: string, role: Role) returns (r: League, outcome: AddOutcome)
    requires IdsAscending(l.teams) && |l.byRole| == 4
    ensures outcome == TeamNotFound <==> forall i :: 0 <= i < |l.teams| ==> l.teams[i].id != teamId
    ensures outcome == TeamFull <==>
      exists i :: 0 <= i < |l.teams| && l.teams[i].id == teamId && l.teams[i].totalPlayers >= MAX_PLAYERS_PER_TEAM
    ensures outcome == DuplicateId ==> IdTaken(l.teams, id)
    ensures outcome == Added ==> !IdTaken(l.teams, id)
    ensures outcome != Added ==> r == l
    ensures outcome == Added ==>
      (exists i :: 0 <= i < |l.teams| && l.teams[i].id == teamId && l.teams[i].totalPlayers < MAX_PLAYERS_PER_TEAM
        && r == InsertPlayer(l, Player(id, BoundedCopy(name, MAX_NAME_LENGTH), l.teams[i].name, role)))
    ensures Consistent(l) ==> Consistent(r)
    ensures UniqueIds(l.teams) ==> UniqueIds(r.teams)
  {
    var index := FindTeamIndexById(l.teams, teamId);
    if index == -1 {
      return l, TeamNotFound;
    }
    var team := l.teams[index];
    if team.totalPlayers >= MAX_PLAYERS_PER_TEAM {
      return l, TeamFull;
    }
    var taken := IsPlayerIdPresent(l.teams, id);
    if taken {
      return l, DuplicateId;
    }
    var p := Player(id, BoundedCopy(name, MAX_NAME_LENGTH), team.name, role);
    r := InsertPlayer(l, p);
    if Consistent(l) {
      InsertKeepsConsistent(l, p);
    }
    if UniqueIds(l.teams) {
      InsertKeepsIdsUnique(l, p);
    }
    outcome := Added;
  }

  /** When team names differ ignoring case, an added player lands in the chosen team,
      which then counts one more player. */
  lemma AddedToChosenTeam(l: League, i: nat, p: Player)
    requires |l.byRole| == 4 && i < |l.teams| && p.team == l.teams[i].name
    requires forall a, b :: 0 <= a < b < |l.teams| ==> !EqualIgnoringCase(l.teams[a].name, l.teams[b].name)
    ensures InsertPlayer(l, p).teams[i].players == [p] + l.teams[i].players
    ensures InsertPlayer(l, p).teams[i].totalPlayers == l.teams[i].totalPlayers + 1
  {
    assert EqualIgnoringCase(l.teams[i].name, p.team);
  }
}
