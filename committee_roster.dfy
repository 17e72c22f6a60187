/**
 * The roster side of the committee pyramid builder (NUV_Yuva.js): reading the
 * member cards, grouping the members by role in first-seen order, the fixed
 * role-to-level table, the rows of roles per level, and the stable sort of a
 * row's roles by group size, largest first.
 */
module CommitteeRoster {
  import opened Wrappers
  import opened MemberText

  /**
   * A `.member-card`: the text of its `.member-name` and `.member-role`
   * elements when it has them, and its own text content.
   */
  datatype Card = Card(nameEl: Option<string>, roleEl: Option<string>, text: string)

  /** A member as the builder reads it from a card. */
  datatype Member = Member(name: string, role: string)

  /**
   * The name is the trimmed name element, or the trimmed card text when
   * there is none; the role is the trimmed role element, or "Other".
   * Either way the name is one `initialsOf` accepts.
   */
  function ReadMember(c: Card): (m: Member)
    ensures Initialable(m.name)
    ensures c.roleEl.None? ==> m.role == "Other"
  {
    var name := if c.nameEl.Some? then Trim(c.nameEl.value) else Trim(c.text);
    TrimmedInitialable(if c.nameEl.Some? then c.nameEl.value else c.text);
    Member(name, if c.roleEl.Some? then Trim(c.roleEl.value) else "Other")
  }

  /** Every name in the roster is one `initialsOf` accepts. */
  predicate Readable(ms: seq<Member>)
  {
    forall i :: 0 <= i < |ms| ==> Initialable(ms[i].name)
  }

  /** The members of the cards, in document order. */
  function ReadRoster(cards: seq<Card>): (ms: seq<Member>)
    ensures |ms| == |cards|
    ensures forall i :: 0 <= i < |cards| ==> ms[i] == ReadMember(cards[i])
    ensures Readable(ms)
  {
    seq(|cards|, i requires 0 <= i < |cards| => ReadMember(cards[i]))
  }

  /** The position of the first member with role r, or |ms| when there is none. */
  function First(ms: seq<Member>, r: string): (p: nat)
    ensures p <= |ms|
    ensures p < |ms| ==> ms[p].role == r
    ensures forall j :: 0 <= j < p ==> ms[j].role != r
  {
    if ms == [] then 0
    else
      var p := First(ms[..|ms| - 1], r);
      if p < |ms| - 1 then p
      else if ms[|ms| - 1].role == r then |ms| - 1
      else |ms|
  }

  /** No two entries are equal. */
  predicate Distinct(rs: seq<string>)
  {
    forall i, j :: 0 <= i < j < |rs| ==> rs[i] != rs[j]
  }

  /**
   * The keys of `groups` in insertion order: each role of the roster once,
   * in the order of its first member.
   */
  function Roles(ms: seq<Member>): (rs: seq<string>)
    ensures |rs| <= |ms|
    ensures ms != [] ==> rs != [] && rs[0] == ms[0].role
  {
    if ms == [] then []
    else
      var prev := Roles(ms[..|ms| - 1]);
      var r := ms[|ms| - 1].role;
      if r in prev then prev else prev + [r]
  }

  /** One more card: its role joins the keys when it is new. */
  lemma RolesStep(ms: seq<Member>, i: nat)
    requires i < |ms|
    ensures Roles(ms[..i + 1]) == if ms[i].role in Roles(ms[..i]) then Roles(ms[..i]) else Roles(ms[..i]) + [ms[i].role]
  {
    assert ms[..i + 1][..i] == ms[..i];
  }

  /** One more member: the first position of a role moves only when the role is new. */
  lemma FirstStep(ms: seq<Member>, x: string)
    requires ms != []
    ensures var prefix := ms[..|ms| - 1];
      First(ms, x) == if First(prefix, x) < |prefix| then First(prefix, x) else if ms[|ms| - 1].role == x then |prefix| else |ms|
  {
  }

  /** The roles are distinct, and they are exactly the roles members have. */
  lemma {:induction false} RolesFacts(ms: seq<Member>)
    ensures Distinct(Roles(ms))
    ensures forall r :: r in Roles(ms) <==> First(ms, r) < |ms|
    decreases |ms|
  {
    if ms != [] {
      var prefix := ms[..|ms| - 1];
      RolesFacts(prefix);
      var prev, r := Roles(prefix), ms[|ms| - 1].role;
      forall x
        ensures x in Roles(ms) <==> First(ms, x) < |ms|
      {
        FirstStep(ms, x);
      }
      if r !in prev {
        var rs := prev + [r];
        assert forall k :: 0 <= k < |prev| ==> rs[k] == prev[k] && prev[k] in prev;
      }
    }
  }

  /** The roles come in the order of their first members. */
  lemma {:induction false} RolesOrder(ms: seq<Member>)
    ensures forall k1, k2 :: 0 <= k1 < k2 < |Roles(ms)| ==> First(ms, Roles(ms)[k1]) < First(ms, Roles(ms)[k2])
    decreases |ms|
  {
    if ms != [] {
      var prefix := ms[..|ms| - 1];
      RolesOrder(prefix);
      RolesFacts(prefix);
      var prev, r, rs := Roles(prefix), ms[|ms| - 1].role, Roles(ms);
      forall k1, k2 | 0 <= k1 < k2 < |rs|
        ensures First(ms, rs[k1]) < First(ms, rs[k2])
      {
        assert rs[k1] == prev[k1] && prev[k1] in prev;
        FirstStep(ms, rs[k1]);
        FirstStep(ms, rs[k2]);
        if k2 < |prev| {
          assert rs[k2] == prev[k2] && prev[k2] in prev;
        }
      }
    }
  }

  /** Each member's role is among the roles. */
  lemma MemberRole(ms: seq<Member>, i: nat)
    requires i < |ms|
    ensures ms[i].role in Roles(ms)
  {
    RolesFacts(ms);
  }

  /** `groups[r]`: the names of the members with role r, in roster order. */
  function Names(ms: seq<Member>, r: string): (ns: seq<string>)
    ensures |ns| <= |ms|
    ensures ms != [] && ms[0].role == r ==> ns != [] && ns[0] == ms[0].name
  {
    if ms == [] then []
    else
      var m := ms[|ms| - 1];
      Names(ms[..|ms| - 1], r) + (if m.role == r then [m.name] else [])
  }

  /** One more card: its name is appended to the group of its role, and no other group changes. */
  lemma NamesStep(ms: seq<Member>, i: nat, r: string)
    requires i < |ms|
    ensures Names(ms[..i + 1], r) == Names(ms[..i], r) + (if ms[i].role == r then [ms[i].name] else [])
  {
    assert ms[..i + 1][..i] == ms[..i];
  }

  /**
   * A group is empty exactly when no member has the role, never larger than
   * the roster, and holds only names of members.
   */
  lemma {:induction false} NamesFacts(ms: seq<Member>, r: string)
    ensures Names(ms, r) == [] <==> First(ms, r) == |ms|
    ensures |Names(ms, r)| <= |ms|
    ensures Readable(ms) ==> forall k :: 0 <= k < |Names(ms, r)| ==> Initialable(Names(ms, r)[k])
    decreases |ms|
  {
    if ms != [] {
      var prefix := ms[..|ms| - 1];
      NamesFacts(prefix, r);
      assert forall i :: 0 <= i < |prefix| ==> prefix[i] == ms[i];
    }
  }

  /** The `groups` dictionary: each role of the roster to the names in its group. */
  function Groups(ms: seq<Member>): (g: map<string, seq<string>>)
    ensures ms != [] ==> ms[0].role in g && g[ms[0].role] != [] && g[ms[0].role][0] == ms[0].name
  {
    map r | r in Roles(ms) :: Names(ms, r)
  }

  /** Every group is non-empty and holds names `initialsOf` accepts. */
  predicate ReadableGroups(g: map<string, seq<string>>)
  {
    forall r :: r in g ==> g[r] != [] && forall k :: 0 <= k < |g[r]| ==> Initialable(g[r][k])
  }

  lemma GroupsReadable(ms: seq<Member>)
    requires Readable(ms)
    ensures ReadableGroups(Groups(ms))
  {
    RolesFacts(ms);
    forall r | r in Roles(ms)
      ensures Names(ms, r) != [] && forall k :: 0 <= k < |Names(ms, r)| ==> Initialable(Names(ms, r)[k])
    {
      NamesFacts(ms, r);
    }
  }

  /** A member's name is in the group of its role. */
  lemma {:induction false} MemberInGroup(ms: seq<Member>, i: nat)
    requires i < |ms|
    ensures ms[i].role in Groups(ms)
    ensures ms[i].name in Groups(ms)[ms[i].role]
    decreases |ms|
  {
    MemberRole(ms, i);
    NameInGroup(ms, i);
  }

  lemma {:induction false} NameInGroup(ms: seq<Member>, i: nat)
    requires i < |ms|
    ensures ms[i].name in Names(ms, ms[i].role)
    decreases |ms|
  {
    var prefix := ms[..|ms| - 1];
    if i < |ms| - 1 {
      NameInGroup(prefix, i);
      assert prefix[i] == ms[i];
    }
  }

  /** A card without a role element is grouped under "Other". */
  lemma NoRoleIsOther(cards: seq<Card>, i: nat)
    requires i < |cards| && cards[i].roleEl.None?
    ensures "Other" in Groups(ReadRoster(cards))
    ensures ReadMember(cards[i]).name in Groups(ReadRoster(cards))["Other"]
  {
    MemberInGroup(ReadRoster(cards), i);
  }

  /** The sum of the group sizes of the given roles. */
  function GroupTotal(ms: seq<Member>, rs: seq<string>): nat
  {
    if rs == [] then 0 else GroupTotal(ms, rs[..|rs| - 1]) + |Names(ms, rs[|rs| - 1])|
  }

  /** Every member lands in exactly one group: the group sizes add up to the roster's size. */
  lemma {:induction false} GroupsPartition(ms: seq<Member>)
    ensures GroupTotal(ms, Roles(ms)) == |ms|
    decreases |ms|
  {
    if ms != [] {
      var prefix := ms[..|ms| - 1];
      var m := ms[|ms| - 1];
      GroupsPartition(prefix);
      RolesFacts(prefix);
      var prev := Roles(prefix);
      GroupTotalStep(ms, prev);
      if m.role !in prev {
        assert Roles(ms) == prev + [m.role];
        assert (prev + [m.role])[..|prev|] == prev;
        NamesFacts(prefix, m.role);
        assert Names(ms, m.role) == [m.name];
      }
    }
  }

  /**
   * Adding the last member to the roster adds one to the total of the
   * roles before it exactly when its role is among them.
   */
  lemma {:induction false} GroupTotalStep(ms: seq<Member>, rs: seq<string>)
    requires ms != [] && Distinct(rs)
    ensures GroupTotal(ms, rs) == GroupTotal(ms[..|ms| - 1], rs) + (if ms[|ms| - 1].role in rs then 1 else 0)
    decreases |rs|
  {
    if rs != [] {
      var init := rs[..|rs| - 1];
      assert Distinct(init);
      GroupTotalStep(ms, init);
      var last := rs[|rs| - 1];
      var m := ms[|ms| - 1];
      assert m.role in rs <==> m.role in init || m.role == last;
      assert m.role == last ==> m.role !in init;
    }
  }

  /** The fixed role-to-level table of the builder, as its list of entries. */
  const RoleToLevel: seq<(string, nat)> := [
    ("President", 0),
    ("Vice President", 1),
    ("Secretary", 2),
    ("Treasurer", 2),
    ("Cultural Head", 3),
    ("Student Welfare", 3),
    ("Marketing Head", 3),
    ("Outreach Head", 4),
    ("Design Head", 4),
    ("Content Head", 4),
    ("E-Sports Head", 4),
    ("Decoration Head", 5),
    ("Social Media Head", 5),
    ("Media Head", 5),
    ("Technical Head", 5)
  ]

  /** The level everyone whose role is not in the table is placed at. */
  const UnknownLevel: nat := 6

  /** The role is a key of the table (`hasOwnProperty`). */
  predicate InTable(table: seq<(string, nat)>, r: string)
  {
    exists k :: 0 <= k < |table| && table[k].0 == r
  }

  /** The level of the first entry for r, or the fallback when there is none. */
  function LevelIn(table: seq<(string, nat)>, r: string): (l: nat)
  {
    if table == [] then UnknownLevel
    else if table[0].0 == r then table[0].1
    else LevelIn(table[1..], r)
  }

  /** The lookup gives the level of an entry for r when the table has one, and the fallback otherwise. */
  lemma {:induction false} LevelInFacts(table: seq<(string, nat)>, r: string)
    ensures InTable(table, r) ==> exists k :: 0 <= k < |table| && table[k].0 == r && LevelIn(table, r) == table[k].1
    ensures !InTable(table, r) ==> LevelIn(table, r) == UnknownLevel
    decreases |table|
  {
    if table != [] && table[0].0 != r {
      var tail := table[1..];
      LevelInFacts(tail, r);
      if InTable(table, r) {
        var k :| 0 <= k < |table| && table[k].0 == r;
        assert tail[k - 1] == table[k];
        var j :| 0 <= j < |tail| && tail[j].0 == r && LevelIn(tail, r) == tail[j].1;
        assert table[j + 1] == tail[j];
      }
    }
  }

  /** A role's level: its entry in the table, or level 6 when it has none. */
  function LevelOf(r: string): (l: nat)
    ensures l <= UnknownLevel
    ensures r == "President" ==> l == 0
  {
    LevelInFacts(RoleToLevel, r);
    TableLevels();
    LevelIn(RoleToLevel, r)
  }

  /** The table puts "President" first, at level 0, and every other role at a level from 1 to 5. */
  lemma TableLevels()
    ensures |RoleToLevel| > 0 && RoleToLevel[0] == ("President", 0)
    ensures forall k :: 1 <= k < |RoleToLevel| ==> 1 <= RoleToLevel[k].1 <= 5
  {
  }

  /** Levels run from 0 to 6; a role is at 6 exactly when the table lacks it, and at 0 exactly when it is "President". */
  lemma LevelFacts(r: string)
    ensures LevelOf(r) <= UnknownLevel
    ensures LevelOf(r) == UnknownLevel <==> !InTable(RoleToLevel, r)
    ensures LevelOf(r) == 0 <==> r == "President"
  {
    LevelInFacts(RoleToLevel, r);
    TableLevels();
    assert InTable(RoleToLevel, "President") by {
      assert RoleToLevel[0].0 == "President";
    }
  }

  /** `rowsMap[level]`: the roles at that level, in the order given. */
  function RowRoles(rs: seq<string>, level: nat): (row: seq<string>)
    ensures |row| <= |rs|
    ensures forall k :: 0 <= k < |row| ==> LevelOf(row[k]) == level
  {
    if rs == [] then []
    else
      var last := rs[|rs| - 1];
      RowRoles(rs[..|rs| - 1], level) + (if LevelOf(last) == level then [last] else [])
  }

  /** One more role: it is appended to the row of its level, and no other row changes. */
  lemma RowRolesStep(rs: seq<string>, j: nat, level: nat)
    requires j < |rs|
    ensures RowRoles(rs[..j + 1], level) == RowRoles(rs[..j], level) + (if LevelOf(rs[j]) == level then [rs[j]] else [])
  {
    assert rs[..j + 1][..j] == rs[..j];
  }

  /** A row holds exactly the roles at its level, each once when the roles are distinct. */
  lemma {:induction false} RowRolesFacts(rs: seq<string>, level: nat)
    ensures forall r :: r in RowRoles(rs, level) <==> r in rs && LevelOf(r) == level
    ensures Distinct(rs) ==> Distinct(RowRoles(rs, level))
    decreases |rs|
  {
    if rs != [] {
      var init, last := rs[..|rs| - 1], rs[|rs| - 1];
      RowRolesFacts(init, level);
      assert rs == init + [last];
      assert forall r :: r in rs <==> r in init || r == last;
      if Distinct(rs) {
        assert Distinct(init);
        assert last !in init;
      }
    }
  }

  /** Some role is at this level. */
  predicate Occupied(rs: seq<string>, level: nat)
  {
    exists k :: 0 <= k < |rs| && LevelOf(rs[k]) == level
  }

  /** A level has a row of roles exactly when some role is at it. */
  lemma RowRolesOccupied(rs: seq<string>, level: nat)
    ensures RowRoles(rs, level) != [] <==> Occupied(rs, level)
  {
    RowRolesFacts(rs, level);
    if RowRoles(rs, level) != [] {
      assert RowRoles(rs, level)[0] in rs;
    }
    if Occupied(rs, level) {
      var k :| 0 <= k < |rs| && LevelOf(rs[k]) == level;
      assert rs[k] in RowRoles(rs, level);
    }
  }

  /** The occupied levels below `bound`, in ascending order. */
  function LevelsBelow(rs: seq<string>, bound: nat): (ls: seq<nat>)
    ensures |ls| <= bound
  {
    if bound == 0 then []
    else LevelsBelow(rs, bound - 1) + (if Occupied(rs, bound - 1) then [bound - 1] else [])
  }

  lemma {:induction false} LevelsBelowFacts(rs: seq<string>, bound: nat)
    ensures forall i :: 0 <= i < |LevelsBelow(rs, bound)| ==> LevelsBelow(rs, bound)[i] < bound
    ensures forall i, j :: 0 <= i < j < |LevelsBelow(rs, bound)| ==> LevelsBelow(rs, bound)[i] < LevelsBelow(rs, bound)[j]
    ensures forall l: nat :: l in LevelsBelow(rs, bound) <==> l < bound && Occupied(rs, l)
    decreases bound
  {
    if bound > 0 {
      LevelsBelowFacts(rs, bound - 1);
      var prev := LevelsBelow(rs, bound - 1);
      var extra: seq<nat> := if Occupied(rs, bound - 1) then [bound - 1] else [];
      assert LevelsBelow(rs, bound) == prev + extra;
      forall l: nat
        ensures l in prev + extra <==> l < bound && Occupied(rs, l)
      {
        assert l in prev + extra <==> l in prev || l in extra;
      }
    }
  }

  /** The sorted keys of `rowsMap`: every occupied level once, ascending. */
  function Levels(rs: seq<string>): (ls: seq<nat>)
    ensures forall i, j :: 0 <= i < j < |ls| ==> ls[i] < ls[j]
    ensures forall l: nat :: l in ls <==> Occupied(rs, l)
  {
    LevelsBelowFacts(rs, UnknownLevel + 1);
    assert forall l: nat :: Occupied(rs, l) ==> l <= UnknownLevel by {
      forall l: nat | Occupied(rs, l)
        ensures l <= UnknownLevel
      {
        var k :| 0 <= k < |rs| && LevelOf(rs[k]) == l;
        LevelFacts(rs[k]);
      }
    }
    LevelsBelow(rs, UnknownLevel + 1)
  }
}
