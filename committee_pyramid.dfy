/**
 * The committee pyramid builder of NUV_Yuva.js: `run` replaces the first
 * `.committee-grid` of the page by a `.committee-pyramid` whose rows are the
 * occupied levels in ascending order, each row holding one frame per role,
 * ordered by group size, largest first, and each frame one person per member
 * of the group, with an avatar of their initials.
 *
 * `Pyramid` states the tree the builder produces; `BuildPyramid` computes it
 * the way the builder does, filling the `groups` and `rowsMap` dictionaries
 * and appending rows, frames and people one at a time.
 */
module CommitteePyramid {
  import opened Wrappers
  import opened MemberText
  import opened CommitteeRoster
  import opened RoleSort

  /** A `.committee-person`: the avatar's initials and the name shown. */
  datatype Person = Person(initials: string, name: string)

  /**
   * A `.committee-frame`: its role label (with `crown` on level 0), whether
   * it is `compact`, and its people.
   */
  datatype Frame = Frame(role: string, crown: bool, compact: bool, people: seq<Person>)

  /** A `.pyramid-row.level-N`, with `top` on the first row. */
  datatype Row = Row(level: nat, top: bool, frames: seq<Frame>)

  function PersonOf(name: string): (p: Person)
    requires Initialable(name)
    ensures p.name == name && |p.initials| <= 2
  {
    Person(InitialsOf(name), name)
  }

  /** The frame of one role at one level. */
  function FrameOf(g: map<string, seq<string>>, level: nat, role: string): (f: Frame)
    requires ReadableGroups(g) && role in g
    ensures f.role == role && (f.crown <==> level == 0) && (f.compact <==> |g[role]| > 3)
    ensures |f.people| == |g[role]|
  {
    var names := g[role];
    Frame(role, level == 0, |names| > 3, seq(|names|, k requires 0 <= k < |names| => PersonOf(names[k])))
  }

  /** Every role of every row is a key of the groups. */
  predicate RowsGrouped(g: map<string, seq<string>>, roles: seq<string>)
  {
    forall r :: r in roles ==> r in g
  }

  /** The sorted row of roles at a level holds exactly the roles at that level. */
  lemma SortedRowMembers(g: map<string, seq<string>>, roles: seq<string>, level: nat)
    ensures forall r :: r in SortBySize(g, RowRoles(roles, level)) <==> r in roles && LevelOf(r) == level
  {
    var row := RowRoles(roles, level);
    var sorted := SortBySize(g, row);
    RowRolesFacts(roles, level);
    forall r
      ensures r in sorted <==> r in row
    {
      assert r in sorted <==> r in multiset(sorted);
      assert r in row <==> r in multiset(row);
    }
  }

  /** The row at a level: its frames in the order of the stable sort by group size. */
  function RowOf(g: map<string, seq<string>>, roles: seq<string>, top: bool, level: nat): (row: Row)
    requires ReadableGroups(g) && RowsGrouped(g, roles)
    ensures row.level == level && row.top == top
    ensures |row.frames| == |RowRoles(roles, level)|
  {
    var sorted := SortBySize(g, RowRoles(roles, level));
    SortedRowMembers(g, roles, level);
    Row(level, top, seq(|sorted|, k requires 0 <= k < |sorted| => FrameOf(g, level, sorted[k])))
  }

  /** The rows `run` builds from a roster: one per occupied level, ascending, the first one `top`. */
  function Pyramid(ms: seq<Member>): (rows: seq<Row>)
    requires Readable(ms)
    ensures |rows| == |Levels(Roles(ms))|
    ensures rows != [] ==> rows[0].top && rows[0].level == Levels(Roles(ms))[0]
  {
    var roles, g := Roles(ms), Groups(ms);
    var levels := Levels(roles);
    GroupsReadable(ms);
    seq(|levels|, i requires 0 <= i < |levels| => RowOf(g, roles, levels[i] == levels[0], levels[i]))
  }

  /** Row i of the pyramid is the row of the i-th occupied level, and only the first is `top`. */
  lemma PyramidAt(ms: seq<Member>, i: nat)
    requires Readable(ms) && i < |Levels(Roles(ms))|
    ensures |Pyramid(ms)| == |Levels(Roles(ms))|
    ensures ReadableGroups(Groups(ms)) && RowsGrouped(Groups(ms), Roles(ms))
    ensures Occupied(Roles(ms), Levels(Roles(ms))[i])
    ensures (Levels(Roles(ms))[i] == Levels(Roles(ms))[0]) == (i == 0)
    ensures Pyramid(ms)[i] == RowOf(Groups(ms), Roles(ms), i == 0, Levels(Roles(ms))[i])
  {
    GroupsReadable(ms);
    var levels := Levels(Roles(ms));
    assert levels[i] in levels;
    assert i != 0 ==> levels[0] < levels[i];
  }

  /** The roles of a row's frames, left to right. */
  function FrameRoles(row: Row): (rs: seq<string>)
    ensures |rs| == |row.frames|
    ensures forall k :: 0 <= k < |rs| ==> rs[k] == row.frames[k].role
  {
    seq(|row.frames|, k requires 0 <= k < |row.frames| => row.frames[k].role)
  }

  lemma RowFrameRoles(g: map<string, seq<string>>, roles: seq<string>, top: bool, level: nat)
    requires ReadableGroups(g) && RowsGrouped(g, roles)
    ensures FrameRoles(RowOf(g, roles, top, level)) == SortBySize(g, RowRoles(roles, level))
  {
  }

  /**
   * Rows come in strictly ascending level order, each at a level some role
   * of the roster is at, and every such level has a row; only the first row
   * is `top`.
   */
  lemma PyramidRows(ms: seq<Member>)
    requires Readable(ms)
    ensures forall i, j :: 0 <= i < j < |Pyramid(ms)| ==> Pyramid(ms)[i].level < Pyramid(ms)[j].level
    ensures forall i :: 0 <= i < |Pyramid(ms)| ==> Occupied(Roles(ms), Pyramid(ms)[i].level)
    ensures forall l: nat :: Occupied(Roles(ms), l) ==> exists i :: 0 <= i < |Pyramid(ms)| && Pyramid(ms)[i].level == l
    ensures forall i :: 0 <= i < |Pyramid(ms)| ==> (Pyramid(ms)[i].top <==> i == 0)
  {
    var rows, levels := Pyramid(ms), Levels(Roles(ms));
    PyramidLength(ms);
    forall i | 0 <= i < |rows|
      ensures rows[i].level == levels[i] && (rows[i].top <==> i == 0)
    {
      PyramidAt(ms, i);
    }
    forall l: nat | Occupied(Roles(ms), l)
      ensures exists i :: 0 <= i < |rows| && rows[i].level == l
    {
      var i :| 0 <= i < |levels| && levels[i] == l;
      assert rows[i].level == l;
    }
    forall i | 0 <= i < |rows|
      ensures Occupied(Roles(ms), rows[i].level)
    {
      assert levels[i] in levels;
    }
  }

  /**
   * A frame's role label is crowned exactly on level 0, the frame is
   * compact exactly when its group has more than three members, and its
   * people are the group's members in roster order, each with the initials
   * of their name.
   */
  lemma PyramidFrames(ms: seq<Member>, i: nat, k: nat)
    requires Readable(ms) && i < |Pyramid(ms)| && k < |Pyramid(ms)[i].frames|
    ensures var f := Pyramid(ms)[i].frames[k];
      && (f.crown <==> Pyramid(ms)[i].level == 0)
      && (f.compact <==> |Names(ms, f.role)| > 3)
      && |f.people| == |Names(ms, f.role)|
      && forall t :: 0 <= t < |f.people| ==>
           Initialable(Names(ms, f.role)[t]) && f.people[t] == Person(InitialsOf(Names(ms, f.role)[t]), Names(ms, f.role)[t])
  {
    var roles, g := Roles(ms), Groups(ms);
    PyramidLength(ms);
    PyramidAt(ms, i);
    var row := Pyramid(ms)[i];
    var sorted := SortBySize(g, RowRoles(roles, row.level));
    SortedRowMembers(g, roles, row.level);
    assert row.frames[k] == FrameOf(g, row.level, sorted[k]);
    assert sorted[k] in sorted;
  }

  /** Row i holds one frame per role of its level, each once, in the order of the sort. */
  lemma RowRolesOfPyramid(ms: seq<Member>, i: nat)
    requires Readable(ms) && i < |Pyramid(ms)|
    ensures FrameRoles(Pyramid(ms)[i]) == SortBySize(Groups(ms), RowRoles(Roles(ms), Pyramid(ms)[i].level))
    ensures forall r :: r in FrameRoles(Pyramid(ms)[i]) <==> r in Roles(ms) && LevelOf(r) == Pyramid(ms)[i].level
    ensures Distinct(FrameRoles(Pyramid(ms)[i]))
  {
    var roles, g := Roles(ms), Groups(ms);
    PyramidLength(ms);
    PyramidAt(ms, i);
    var row := Pyramid(ms)[i];
    RowFrameRoles(g, roles, row.top, row.level);
    SortedRowMembers(g, roles, row.level);
    RolesFacts(ms);
    RowRolesFacts(roles, row.level);
    SortedDistinct(g, RowRoles(roles, row.level));
  }

  /** Every frame's role is a role of the roster at the level of its row. */
  lemma FramesAtTheirLevel(ms: seq<Member>)
    requires Readable(ms)
    ensures forall i, k :: 0 <= i < |Pyramid(ms)| && 0 <= k < |Pyramid(ms)[i].frames| ==>
      Pyramid(ms)[i].frames[k].role in Roles(ms) && LevelOf(Pyramid(ms)[i].frames[k].role) == Pyramid(ms)[i].level
  {
    var rows := Pyramid(ms);
    forall i, k | 0 <= i < |rows| && 0 <= k < |rows[i].frames|
      ensures rows[i].frames[k].role in Roles(ms) && LevelOf(rows[i].frames[k].role) == rows[i].level
    {
      RowRolesOfPyramid(ms, i);
      assert FrameRoles(rows[i])[k] in FrameRoles(rows[i]);
    }
  }

  /** Every role of the roster has a frame in the row of its level. */
  lemma EveryRoleFramed(ms: seq<Member>, r: string)
    requires Readable(ms) && r in Roles(ms)
    ensures exists i :: 0 <= i < |Pyramid(ms)| && Pyramid(ms)[i].level == LevelOf(r) && r in FrameRoles(Pyramid(ms)[i])
  {
    var rows, roles := Pyramid(ms), Roles(ms);
    PyramidRows(ms);
    var k :| 0 <= k < |roles| && roles[k] == r;
    assert Occupied(roles, LevelOf(r));
    var i :| 0 <= i < |rows| && rows[i].level == LevelOf(r);
    RowRolesOfPyramid(ms, i);
  }

  /** No role has two frames. */
  lemma RoleFramedOnce(ms: seq<Member>, i1: nat, k1: nat, i2: nat, k2: nat)
    requires Readable(ms)
    requires i1 < |Pyramid(ms)| && k1 < |Pyramid(ms)[i1].frames|
    requires i2 < |Pyramid(ms)| && k2 < |Pyramid(ms)[i2].frames|
    requires Pyramid(ms)[i1].frames[k1].role == Pyramid(ms)[i2].frames[k2].role
    ensures i1 == i2 && k1 == k2
  {
    var rows := Pyramid(ms);
    PyramidRows(ms);
    RowRolesOfPyramid(ms, i1);
    RowRolesOfPyramid(ms, i2);
    var r := rows[i1].frames[k1].role;
    assert r == FrameRoles(rows[i1])[k1] && r == FrameRoles(rows[i2])[k2];
    assert r in FrameRoles(rows[i1]) && r in FrameRoles(rows[i2]);
  }

  /** Sorting a list without repeats leaves it without repeats. */
  lemma SortedDistinct(g: map<string, seq<string>>, rs: seq<string>)
    requires Distinct(rs)
    ensures Distinct(SortBySize(g, rs))
  {
    var out := SortBySize(g, rs);
    forall i, j | 0 <= i < j < |out|
      ensures out[i] != out[j]
    {
      if out[i] == out[j] {
        TwiceCounted(out, i, j);
        DistinctOnce(rs, out[i]);
      }
    }
  }

  /** An entry found at two positions is counted twice. */
  lemma TwiceCounted(rs: seq<string>, i: nat, j: nat)
    requires i < j < |rs| && rs[i] == rs[j]
    ensures multiset(rs)[rs[i]] >= 2
  {
    var a, b := rs[..j], rs[j..];
    assert rs == a + b;
    assert rs[i] == a[i] && rs[j] == b[0];
    assert multiset(rs) == multiset(a) + multiset(b);
    assert a[i] in multiset(a) && b[0] in multiset(b);
  }

  /** In a list without repeats every entry occurs at most once. */
  lemma {:induction false} DistinctOnce(rs: seq<string>, r: string)
    requires Distinct(rs)
    ensures multiset(rs)[r] <= 1
    decreases |rs|
  {
    if rs != [] {
      assert rs == [rs[0]] + rs[1..];
      assert Distinct(rs[1..]);
      DistinctOnce(rs[1..], r);
      if rs[0] == r {
        assert r !in rs[1..];
      }
    }
  }

  /**
   * Within a row, frames are ordered by group size, largest first, and roles
   * of equal size keep the order in which the roster first mentions them.
   */
  lemma PyramidRowOrder(ms: seq<Member>, i: nat)
    requires Readable(ms) && i < |Pyramid(ms)|
    ensures Descending(Groups(ms), FrameRoles(Pyramid(ms)[i]))
    ensures forall s: nat :: WithSize(Groups(ms), FrameRoles(Pyramid(ms)[i]), s) ==
                             WithSize(Groups(ms), RowRoles(Roles(ms), Pyramid(ms)[i].level), s)
  {
    var roles, g, row := Roles(ms), Groups(ms), Pyramid(ms)[i];
    PyramidLength(ms);
    PyramidAt(ms, i);
    RowFrameRoles(g, roles, row.top, row.level);
    SortBySizeSorted(g, RowRoles(roles, row.level));
  }

  /** The `groups` loop: one pass over the cards, in document order. */
  method GroupMembers(cards: seq<Card>) returns (groups: map<string, seq<string>>, presentRoles: seq<string>)
    ensures presentRoles == Roles(ReadRoster(cards))
    ensures groups == Groups(ReadRoster(cards))
  {
    ghost var ms := ReadRoster(cards);
    groups, presentRoles := map[], [];
    for i := 0 to |cards|
      invariant GroupsSoFar(groups, presentRoles, ms[..i])
    {
      var m := ReadMember(cards[i]);
      GroupStep(ms, i, groups, presentRoles);
      var group := if m.role in groups then groups[m.role] else [];
      if m.role !in groups {
        presentRoles := presentRoles + [m.role];
      }
      groups := groups[m.role := group + [m.name]];
    }
    assert ms[..|cards|] == ms;
  }

  /** The dictionary and its keys after the members of a prefix of the roster. */
  ghost predicate GroupsSoFar(groups: map<string, seq<string>>, presentRoles: seq<string>, ms: seq<Member>)
  {
    && presentRoles == Roles(ms)
    && (forall r :: r in groups <==> r in presentRoles)
    && (forall r :: r in groups ==> groups[r] == Names(ms, r))
  }

  /** One card: a new role becomes a key with an empty group, then the name joins its group. */
  lemma GroupStep(ms: seq<Member>, i: nat, groups: map<string, seq<string>>, presentRoles: seq<string>)
    requires i < |ms| && GroupsSoFar(groups, presentRoles, ms[..i])
    ensures var m := ms[i];
      GroupsSoFar(groups[m.role := (if m.role in groups then groups[m.role] else []) + [m.name]],
                  if m.role in groups then presentRoles else presentRoles + [m.role], ms[..i + 1])
  {
    var m := ms[i];
    var groups' := groups[m.role := (if m.role in groups then groups[m.role] else []) + [m.name]];
    var presentRoles' := if m.role in groups then presentRoles else presentRoles + [m.role];
    RolesStep(ms, i);
    assert presentRoles' == Roles(ms[..i + 1]);
    assert forall r :: r in groups' <==> r in presentRoles';
    forall r | r in groups'
      ensures groups'[r] == Names(ms[..i + 1], r)
    {
      NamesStep(ms, i, r);
      if r == m.role && m.role !in groups {
        AbsentRoleNoNames(ms[..i], r);
      }
    }
  }

  lemma AbsentRoleNoNames(ms: seq<Member>, r: string)
    requires r !in Roles(ms)
    ensures Names(ms, r) == []
  {
    RolesFacts(ms);
    NamesFacts(ms, r);
  }

  /** The `rowsMap` loop: each present role appended to the row of its level. */
  method RowsByLevel(presentRoles: seq<string>) returns (rowsMap: map<nat, seq<string>>)
    ensures forall l :: l in rowsMap <==> Occupied(presentRoles, l)
    ensures forall l :: l in rowsMap ==> rowsMap[l] == RowRoles(presentRoles, l)
  {
    rowsMap := map[];
    for j := 0 to |presentRoles|
      invariant forall l :: l in rowsMap <==> RowRoles(presentRoles[..j], l) != []
      invariant forall l :: l in rowsMap ==> rowsMap[l] == RowRoles(presentRoles[..j], l)
    {
      var r := presentRoles[j];
      var lvl := LevelOf(r);
      forall l: nat
        ensures RowRoles(presentRoles[..j + 1], l) == RowRoles(presentRoles[..j], l) + (if lvl == l then [r] else [])
      {
        RowRolesStep(presentRoles, j, l);
      }
      var row := if lvl in rowsMap then rowsMap[lvl] else [];
      rowsMap := rowsMap[lvl := row + [r]];
    }
    assert presentRoles[..|presentRoles|] == presentRoles;
    forall l: nat
      ensures l in rowsMap <==> Occupied(presentRoles, l)
    {
      RowRolesOccupied(presentRoles, l);
    }
  }

  /**
   * The numerically sorted keys of `rowsMap`.  Every key is a level from 0
   * to 6, so scanning those levels in ascending order lists the keys as the
   * numeric sort does.
   */
  method SortedLevels(rowsMap: map<nat, seq<string>>, ghost roles: seq<string>) returns (levels: seq<nat>)
    requires forall l :: l in rowsMap <==> Occupied(roles, l)
    ensures levels == Levels(roles)
  {
    levels := [];
    for l := 0 to UnknownLevel + 1
      invariant levels == LevelsBelow(roles, l)
    {
      if l in rowsMap {
        levels := levels + [l];
      }
    }
  }

  /** One frame: a person per member of the role's group, in group order. */
  method BuildFrame(groups: map<string, seq<string>>, level: nat, role: string) returns (frame: Frame)
    requires ReadableGroups(groups) && role in groups
    ensures frame == FrameOf(groups, level, role)
  {
    var names := groups[role];
    var people: seq<Person> := [];
    for p := 0 to |names|
      invariant |people| == p
      invariant forall t :: 0 <= t < p ==> people[t] == PersonOf(names[t])
    {
      people := people + [Person(InitialsOf(names[p]), names[p])];
    }
    frame := Frame(role, level == 0, |names| > 3, people);
  }

  /** The rows of the pyramid, built as `run` builds them. */
  method BuildPyramid(cards: seq<Card>) returns (rows: seq<Row>)
    ensures rows == Pyramid(ReadRoster(cards))
  {
    ghost var ms := ReadRoster(cards);
    var groups, presentRoles := GroupMembers(cards);
    var rowsMap := RowsByLevel(presentRoles);
    var levels := SortedLevels(rowsMap, presentRoles);
    rows := AssembleRows(ms, groups, presentRoles, rowsMap, levels);
  }

  method AssembleRows(ghost ms: seq<Member>, groups: map<string, seq<string>>, presentRoles: seq<string>,
                      rowsMap: map<nat, seq<string>>, levels: seq<nat>) returns (rows: seq<Row>)
    requires Readable(ms) && presentRoles == Roles(ms) && groups == Groups(ms) && levels == Levels(presentRoles)
    requires forall l :: l in rowsMap <==> Occupied(presentRoles, l)
    requires forall l :: l in rowsMap ==> rowsMap[l] == RowRoles(presentRoles, l)
    ensures rows == Pyramid(ms)
  {
    ghost var target := Pyramid(ms);
    PyramidLength(ms);
    rows := [];
    for i := 0 to |levels|
      invariant rows == target[..i]
    {
      var level := levels[i];
      var top := level == levels[0];
      PyramidAt(ms, i);
      var row := BuildRow(groups, presentRoles, rowsMap[level], level, top);
      PrefixStep(target, i);
      rows := rows + [row];
    }
    PrefixWhole(target);
  }

  lemma PrefixStep<T>(s: seq<T>, i: nat)
    requires i < |s|
    ensures s[..i + 1] == s[..i] + [s[i]]
  {
  }

  lemma PrefixWhole<T>(s: seq<T>)
    ensures s[..|s|] == s
  {
  }

  lemma PyramidLength(ms: seq<Member>)
    requires Readable(ms)
    ensures |Pyramid(ms)| == |Levels(Roles(ms))|
  {
  }

  /** One row: its roles sorted by group size, then a frame per role. */
  method BuildRow(groups: map<string, seq<string>>, ghost presentRoles: seq<string>, rowRoles: seq<string>, level: nat, top: bool)
    returns (row: Row)
    requires ReadableGroups(groups) && RowsGrouped(groups, presentRoles)
    requires rowRoles == RowRoles(presentRoles, level)
    ensures row == RowOf(groups, presentRoles, top, level)
  {
    var roles := SortBySize(groups, rowRoles);
    SortedRowMembers(groups, presentRoles, level);
    var frames: seq<Frame> := [];
    for k := 0 to |roles|
      invariant |frames| == k
      invariant forall t :: 0 <= t < k ==> frames[t] == FrameOf(groups, level, roles[t])
    {
      assert roles[k] in roles;
      var frame := BuildFrame(groups, level, roles[k]);
      frames := frames + [frame];
    }
    row := Row(level, top, frames);
  }
}
