/**
 * `SortCoursesAsTeam`: courses with the same name ride together as a team.
 * Each team is ordered by the numeric value of its members' codes, and the
 * teams are ordered by the numeric value of their "minimum" code, which is
 * chosen by comparing the codes as text.
 */
module TeamSort {
  import opened Strconv
  import opened Records
  import opened Sorting

  /**
   * Go's `<` on strings: lexicographic order. Go compares UTF-8 bytes, and
   * for valid text that is the same as comparing code points.
   */
  predicate StringLess(a: string, b: string): (less: bool)
    ensures less ==> a != b && b != []
    decreases |a|
  {
    if a == [] then b != []
    else if b == [] then false
    else a[0] < b[0] || (a[0] == b[0] && StringLess(a[1..], b[1..]))
  }

  /** A proper prefix comes first: "1" is less than "10". */
  lemma {:induction false} StringLessProperPrefix(a: string, b: string)
    requires |a| < |b| && b[..|a|] == a
    ensures StringLess(a, b)
    decreases |a|
  {
    if a != [] {
      assert b[1..][..|a| - 1] == a[1..];
      StringLessProperPrefix(a[1..], b[1..]);
    }
  }

  lemma {:induction false} StringLessTransitive(a: string, b: string, c: string)
    requires StringLess(a, b) && StringLess(b, c)
    ensures StringLess(a, c)
    decreases |a|
  {
    if a != [] && b != [] && c != [] && a[0] == b[0] == c[0] {
      StringLessTransitive(a[1..], b[1..], c[1..]);
    }
  }

  /** `StringLess` is a strict total order: exactly one of `a < b`, `a == b`, `b < a`. */
  lemma {:induction false} StringLessTotal(a: string, b: string)
    ensures a == b || StringLess(a, b) || StringLess(b, a)
    ensures !(StringLess(a, b) && StringLess(b, a))
    ensures !StringLess(a, a)
    decreases |a|
  {
    if a != [] && b != [] && a[0] == b[0] {
      StringLessTotal(a[1..], b[1..]);
      if a[1..] == b[1..] {
        assert a == [a[0]] + a[1..] && b == [b[0]] + b[1..];
      }
    }
    if a != [] {
      StringLessTotal(a[1..], a[1..]);
    }
  }

  /** One team: its name, the code it is ranked by and its members. */
  datatype CourseGroup = CourseGroup(Name: string, MinCode: string, Courses: seq<Course>)

  /** The integer a course is ranked by within its team. */
  function CodeKey(c: Course): int {
    Atoi(c.Code)
  }

  /** The integer a team is ranked by. */
  function MinCodeKey(g: CourseGroup): int {
    Atoi(g.MinCode)
  }

  /** The names that occur in `cs`. */
  function Names(cs: seq<Course>): set<string>
    decreases |cs|
  {
    if cs == [] then {} else Names(cs[..|cs| - 1]) + {cs[|cs| - 1].Name}
  }

  /** The courses of `cs` named `n`, in their order in `cs`. */
  function WithName(cs: seq<Course>, n: string): (team: seq<Course>)
    ensures |team| <= |cs|
    ensures forall k :: 0 <= k < |team| ==> team[k].Name == n
    decreases |cs|
  {
    if cs == [] then []
    else
      var init := cs[..|cs| - 1];
      assert cs == init + [cs[|cs| - 1]];
      WithName(init, n) + (if cs[|cs| - 1].Name == n then [cs[|cs| - 1]] else [])
  }

  /**
   * The team's minimum code as the grouping loop keeps it: the first member's
   * code, replaced by each later code that is smaller as text. ("" for no
   * members, which no team has.)
   */
  function MinCode(cs: seq<Course>): string
    decreases |cs|
  {
    if cs == [] then ""
    else if |cs| == 1 then cs[0].Code
    else
      var m := MinCode(cs[..|cs| - 1]);
      if StringLess(cs[|cs| - 1].Code, m) then cs[|cs| - 1].Code else m
  }

  /** The teams' members one team after another. */
  function Flatten(gs: seq<CourseGroup>): seq<Course>
    decreases |gs|
  {
    if gs == [] then [] else Flatten(gs[..|gs| - 1]) + gs[|gs| - 1].Courses
  }

  // ---------------------------------------------------------------------------
  // What the result promises
  // ---------------------------------------------------------------------------

  /** Courses that share a name stand next to each other. */
  predicate NamesContiguous(r: seq<Course>) {
    forall i, j, k :: 0 <= i < j < k < |r| && r[i].Name == r[k].Name ==> r[j].Name == r[i].Name
  }

  /** Within a team, codes never decrease numerically (unparsable codes count as 0). */
  predicate MembersByCode(r: seq<Course>) {
    forall i, j :: 0 <= i < j < |r| && r[i].Name == r[j].Name ==> CodeKey(r[i]) <= CodeKey(r[j])
  }

  /** Teams come in nondecreasing numeric order of their textual minimum code in `courses`. */
  predicate GroupsByMinCode(courses: seq<Course>, r: seq<Course>) {
    forall i, j :: 0 <= i < j < |r| && r[i].Name != r[j].Name ==>
      Atoi(MinCode(WithName(courses, r[i].Name))) <= Atoi(MinCode(WithName(courses, r[j].Name)))
  }

  /** Every name occurs in at most one team. */
  predicate DistinctNames(gs: seq<CourseGroup>) {
    forall i, j :: 0 <= i < j < |gs| ==> gs[i].Name != gs[j].Name
  }

  /** `g` is the finished team of its name: all members, ordered, with its minimum code. */
  ghost predicate IsTeam(courses: seq<Course>, g: CourseGroup) {
    && g.Courses != []
    && multiset(g.Courses) == multiset(WithName(courses, g.Name))
    && (forall k :: 0 <= k < |g.Courses| ==> g.Courses[k].Name == g.Name)
    && g.MinCode == MinCode(WithName(courses, g.Name))
    && SortedBy(g.Courses, CodeKey)
  }

  // ---------------------------------------------------------------------------
  // The algorithm
  // ---------------------------------------------------------------------------

  /**
   * `SortCoursesAsTeam`: a rearrangement of `courses` in which each name's
   * courses stand together in numeric order of their codes, and the teams
   * follow the numeric order of their textual minimum codes.
   */
  method SortCoursesAsTeam(courses: seq<Course>) returns (sorted: seq<Course>)
    ensures multiset(sorted) == multiset(courses)
    ensures courses == [] ==> sorted == []
    ensures NamesContiguous(sorted)
    ensures MembersByCode(sorted)
    ensures GroupsByMinCode(courses, sorted)
  {
    if |courses| == 0 {
      return courses;
    }
    var groupsByName := GroupByName(courses);
    var groups := CollectTeams(courses, groupsByName);

    var ordered := OrderTeams(groups);
    RearrangedTeams(courses, groups, ordered);
    sorted := Concatenate(ordered);
    TeamsInOrder(courses, ordered);
  }

  /** The last loop of `SortCoursesAsTeam`: the teams' members, one team after another. */
  method Concatenate(ordered: seq<CourseGroup>) returns (sorted: seq<Course>)
    ensures sorted == Flatten(ordered)
  {
    sorted := [];
    var g := 0;
    while g < |ordered|
      invariant 0 <= g <= |ordered|
      invariant sorted == Flatten(ordered[..g])
    {
      assert ordered[..g + 1][..g] == ordered[..g];
      sorted := sorted + ordered[g].Courses;
      g := g + 1;
    }
    assert ordered[..g] == ordered;
  }

  /**
   * The first loop of `SortCoursesAsTeam`: one team per name, holding that
   * name's courses in input order, with the minimum code kept up to date.
   */
  method GroupByName(courses: seq<Course>) returns (groupsByName: map<string, CourseGroup>)
    ensures GroupsOf(groupsByName, courses)
  {
    groupsByName := map[];
    var i := 0;
    while i < |courses|
      invariant 0 <= i <= |courses|
      invariant GroupsOf(groupsByName, courses[..i])
    {
      var course := courses[i];
      ghost var cs := courses[..i];
      var group: CourseGroup;
      if course.Name !in groupsByName {
        group := CourseGroup(course.Name, course.Code, [course]);
      } else {
        group := groupsByName[course.Name];
        group := group.(Courses := group.Courses + [course]);
        if StringLess(course.Code, group.MinCode) {
          group := group.(MinCode := course.Code);
        }
      }
      ghost var m := groupsByName;
      groupsByName := groupsByName[course.Name := group];
      i := i + 1;
      assert courses[..i] == cs + [course];
      AddCourse(m, cs, course, group, groupsByName, courses[..i]);
    }
    assert courses[..i] == courses;
  }

  /**
   * The second loop of `SortCoursesAsTeam`: takes the teams out of the map in
   * an unspecified order, sorting each one's members by code.
   */
  method CollectTeams(courses: seq<Course>, groupsByName: map<string, CourseGroup>) returns (groups: seq<CourseGroup>)
    requires GroupsOf(groupsByName, courses)
    ensures DistinctNames(groups)
    ensures forall k :: 0 <= k < |groups| ==> IsTeam(courses, groups[k])
    ensures multiset(Flatten(groups)) == multiset(courses)
  {
    groups := [];
    var remaining := groupsByName.Keys;
    ghost var taken: set<string> := {};
    OfNamesNone(courses);
    while remaining != {}
      invariant remaining <= groupsByName.Keys && taken == groupsByName.Keys - remaining
      invariant Collected(courses, groups, taken)
      decreases remaining
    {
      var name :| name in remaining;
      var group := SortMembers(groupsByName[name]);
      AddTeam(courses, groupsByName, groups, taken, name, group);
      groups := groups + [group];
      remaining := remaining - {name};
      taken := taken + {name};
    }
    OfNamesAll(courses, taken);
  }

  /** The third step of `SortCoursesAsTeam`: the teams in numeric order of their minimum code. */
  method OrderTeams(groups: seq<CourseGroup>) returns (ordered: seq<CourseGroup>)
    ensures multiset(ordered) == multiset(groups)
    ensures SortedBy(ordered, MinCodeKey)
  {
    var teams := new CourseGroup[|groups|](k requires 0 <= k < |groups| => groups[k]);
    assert teams[..] == groups;
    SortByKey(teams, MinCodeKey);
    ordered := teams[..];
  }

  /** A team with its members sorted by the numeric value of their codes. */
  method SortMembers(group: CourseGroup) returns (sorted: CourseGroup)
    ensures sorted.Name == group.Name && sorted.MinCode == group.MinCode
    ensures multiset(sorted.Courses) == multiset(group.Courses)
    ensures SortedBy(sorted.Courses, CodeKey)
  {
    var members := new Course[|group.Courses|](k requires 0 <= k < |group.Courses| => group.Courses[k]);
    assert members[..] == group.Courses;
    SortByKey(members, CodeKey);
    sorted := group.(Courses := members[..]);
  }

  /** The teams collected so far are the finished teams of the names in `taken`, each once. */
  ghost predicate Collected(courses: seq<Course>, groups: seq<CourseGroup>, taken: set<string>) {
    && (forall k :: 0 <= k < |groups| ==> groups[k].Name in taken && IsTeam(courses, groups[k]))
    && DistinctNames(groups)
    && multiset(Flatten(groups)) == multiset(OfNames(courses, taken))
  }

  /** One step of the collecting loop: the team of a new name, its members sorted. */
  lemma {:induction false} AddTeam(courses: seq<Course>, m: map<string, CourseGroup>, groups: seq<CourseGroup>,
                taken: set<string>, name: string, g: CourseGroup)
    requires GroupsOf(m, courses) && name in m && name !in taken
    requires Collected(courses, groups, taken)
    requires g.Name == m[name].Name && g.MinCode == m[name].MinCode
    requires multiset(g.Courses) == multiset(m[name].Courses) && SortedBy(g.Courses, CodeKey)
    ensures Collected(courses, groups + [g], taken + {name})
  {
    WithNameOfPresent(courses, name);
    assert m[name] == TeamOf(courses, name);
    assert g.Courses != [] by {
      assert |multiset(g.Courses)| == |m[name].Courses|;
    }
    MembersKeepName(courses, g);
    assert IsTeam(courses, g);
    var gs := groups + [g];
    forall k | 0 <= k < |gs|
      ensures gs[k].Name in taken + {name} && IsTeam(courses, gs[k])
    {
      if k < |groups| {
        assert gs[k] == groups[k];
      }
    }
    forall i, j | 0 <= i < j < |gs|
      ensures gs[i].Name != gs[j].Name
    {
      if j == |groups| {
        assert gs[i] == groups[i] && groups[i].Name in taken;
      } else {
        assert gs[i] == groups[i] && gs[j] == groups[j];
      }
    }
    OfNamesAdd(courses, taken, name);
    FlattenSnoc(groups, g);
  }

  // ---------------------------------------------------------------------------
  // Lemmas about the grouping
  // ---------------------------------------------------------------------------

  /** The team of name `n` as the grouping loop leaves it after reading `cs`. */
  function TeamOf(cs: seq<Course>, n: string): CourseGroup {
    CourseGroup(n, MinCode(WithName(cs, n)), WithName(cs, n))
  }

  /** `m` holds exactly the team of each name in `cs`. */
  predicate GroupsOf(m: map<string, CourseGroup>, cs: seq<Course>) {
    m.Keys == Names(cs) && forall n :: n in m ==> m[n] == TeamOf(cs, n)
  }

  /** One step of the grouping loop: a new team, or the course added to its team. */
  lemma {:induction false} AddCourse(m: map<string, CourseGroup>, cs: seq<Course>, c: Course, g: CourseGroup,
                                     m': map<string, CourseGroup>, cs': seq<Course>)
    requires GroupsOf(m, cs) && cs' == cs + [c] && m' == m[c.Name := g]
    requires c.Name !in m ==> g == CourseGroup(c.Name, c.Code, [c])
    requires c.Name in m ==>
      && g.Name == m[c.Name].Name && g.Courses == m[c.Name].Courses + [c]
      && g.MinCode == (if StringLess(c.Code, m[c.Name].MinCode) then c.Code else m[c.Name].MinCode)
    ensures GroupsOf(m', cs')
  {
    NamesSnoc(cs, c);
    assert g == TeamOf(cs', c.Name) by {
      WithNameSnoc(cs, c, c.Name);
      var t := WithName(cs, c.Name);
      if c.Name in m {
        WithNameOfPresent(cs, c.Name);
        MinCodeSnoc(t, c);
      } else {
        WithNameOfAbsent(cs, c.Name);
        assert t + [c] == [c];
      }
    }
    forall n | n in m'
      ensures m'[n] == TeamOf(cs', n)
    {
      if n != c.Name {
        assert n in m && m'[n] == m[n];
        assert m[n] == TeamOf(cs, n);
        WithNameSnoc(cs, c, n);
        assert WithName(cs', n) == WithName(cs, n) + [];
        assert WithName(cs', n) == WithName(cs, n);
        assert TeamOf(cs', n) == TeamOf(cs, n);
      } else {
        assert m'[n] == g;
      }
    }
  }

  lemma {:induction false} NamesSnoc(cs: seq<Course>, c: Course)
    ensures Names(cs + [c]) == Names(cs) + {c.Name}
  {
    assert (cs + [c])[..|cs|] == cs;
  }

  lemma {:induction false} WithNameSnoc(cs: seq<Course>, c: Course, n: string)
    ensures WithName(cs + [c], n) == WithName(cs, n) + (if c.Name == n then [c] else [])
  {
    assert (cs + [c])[..|cs|] == cs;
  }

  lemma {:induction false} MinCodeSnoc(t: seq<Course>, c: Course)
    requires t != []
    ensures MinCode(t + [c]) == if StringLess(c.Code, MinCode(t)) then c.Code else MinCode(t)
  {
    assert (t + [c])[..|t|] == t;
  }

  /** A name that does not occur has no courses; a new course starts its team. */
  lemma {:induction false} WithNameOfAbsent(cs: seq<Course>, n: string)
    requires n !in Names(cs)
    ensures WithName(cs, n) == []
    decreases |cs|
  {
    if cs != [] {
      WithNameOfAbsent(cs[..|cs| - 1], n);
    }
  }

  /** A name that occurs has at least one course. */
  lemma {:induction false} WithNameOfPresent(cs: seq<Course>, n: string)
    requires n in Names(cs)
    ensures WithName(cs, n) != []
    decreases |cs|
  {
    var init := cs[..|cs| - 1];
    if cs[|cs| - 1].Name != n {
      WithNameOfPresent(init, n);
    }
  }

  /** A sorted team is still the team of its name. */
  lemma {:induction false} MembersKeepName(courses: seq<Course>, g: CourseGroup)
    requires multiset(g.Courses) == multiset(WithName(courses, g.Name))
    ensures forall k :: 0 <= k < |g.Courses| ==> g.Courses[k].Name == g.Name
  {
    forall k | 0 <= k < |g.Courses|
      ensures g.Courses[k].Name == g.Name
    {
      assert g.Courses[k] in multiset(WithName(courses, g.Name));
    }
  }

  /** The courses of `cs` whose name is in `ns`, in their order in `cs`. */
  function OfNames(cs: seq<Course>, ns: set<string>): seq<Course>
    decreases |cs|
  {
    if cs == [] then []
    else OfNames(cs[..|cs| - 1], ns) + (if cs[|cs| - 1].Name in ns then [cs[|cs| - 1]] else [])
  }

  lemma {:induction false} OfNamesNone(cs: seq<Course>)
    ensures OfNames(cs, {}) == []
    decreases |cs|
  {
    if cs != [] {
      OfNamesNone(cs[..|cs| - 1]);
    }
  }

  /** Admitting one more name adds that name's courses. */
  lemma {:induction false} OfNamesAdd(cs: seq<Course>, ns: set<string>, n: string)
    requires n !in ns
    ensures multiset(OfNames(cs, ns + {n})) == multiset(OfNames(cs, ns)) + multiset(WithName(cs, n))
    decreases |cs|
  {
    if cs != [] {
      var init, last := cs[..|cs| - 1], cs[|cs| - 1];
      OfNamesAdd(init, ns, n);
      var a := OfNames(init, ns + {n});
      var b := OfNames(init, ns);
      var w := WithName(init, n);
      assert OfNames(cs, ns + {n}) == a + (if last.Name in ns + {n} then [last] else []);
      assert OfNames(cs, ns) == b + (if last.Name in ns then [last] else []);
      assert WithName(cs, n) == w + (if last.Name == n then [last] else []);
    }
  }

  /** Admitting every name that occurs keeps all the courses. */
  lemma {:induction false} OfNamesAll(cs: seq<Course>, ns: set<string>)
    requires Names(cs) <= ns
    ensures OfNames(cs, ns) == cs
    decreases |cs|
  {
    if cs != [] {
      var init := cs[..|cs| - 1];
      assert Names(cs) == Names(init) + {cs[|cs| - 1].Name};
      OfNamesAll(init, ns);
      assert cs == init + [cs[|cs| - 1]];
    }
  }

  /** The minimum code is one of the codes, and no code is smaller as text. */
  lemma {:induction false} MinCodeIsLeast(cs: seq<Course>)
    requires cs != []
    ensures exists k :: 0 <= k < |cs| && cs[k].Code == MinCode(cs)
    ensures forall k :: 0 <= k < |cs| ==> !StringLess(cs[k].Code, MinCode(cs))
    decreases |cs|
  {
    var last := cs[|cs| - 1];
    if |cs| == 1 {
      StringLessTotal(cs[0].Code, cs[0].Code);
    } else {
      var init := cs[..|cs| - 1];
      var m := MinCode(init);
      MinCodeIsLeast(init);
      var w :| 0 <= w < |init| && init[w].Code == m;
      assert cs[w].Code == m;
      forall k | 0 <= k < |cs|
        ensures !StringLess(cs[k].Code, MinCode(cs))
      {
        if k < |cs| - 1 {
          assert cs[k] == init[k];
          if StringLess(last.Code, m) && StringLess(cs[k].Code, last.Code) {
            StringLessTransitive(cs[k].Code, last.Code, m);
          }
        } else {
          StringLessTotal(last.Code, m);
        }
      }
    }
  }

  /**
   * The minimum is taken on the text of the codes, not on their value: a team
   * with codes "9" and "10" is ranked by "10", although 9 is smaller.
   */
  lemma {:induction false} TextualMinimumOfNineAndTen(a: Course, b: Course)
    requires a.Code == "9" && b.Code == "10"
    ensures MinCode([a, b]) == b.Code
    ensures Atoi(MinCode([a, b])) == 10 && Atoi(a.Code) == 9
  {
    assert [a, b][..1] == [a];
    assert StringLess(b.Code, a.Code);
    assert AllDigits(a.Code) && AllDigits(b.Code);
    assert b.Code[..1] == ['1'] && DigitsValue(['1']) == 1;
  }

  /** `Atoi` of a code of one or two digits. */
  lemma {:induction false} ShortCodeValue(s: string)
    requires 1 <= |s| <= 2 && AllDigits(s)
    ensures |s| == 1 ==> Atoi(s) == DigitValue(s[0])
    ensures |s| == 2 ==> Atoi(s) == DigitValue(s[0]) * 10 + DigitValue(s[1])
  {
    assert s[..|s| - 1][..0] == [];
    if |s| == 2 {
      assert DigitsValue(s[..1]) == DigitValue(s[0]);
    } else {
      assert DigitsValue(s) == DigitsValue(s[..0]) * 10 + DigitValue(s[0]);
    }
  }

  /** Where a course of the worked example belongs in the result. */
  function ExampleRank(x: Course, c5: Course, b10: Course, b30: Course): int {
    if x == c5 then 0 else if x == b10 then 1 else if x == b30 then 2 else 3
  }

  /** The codes of the worked example: their values, and "10" before "30" as text. */
  lemma {:induction false} ExampleCodes(b30: Course, a20: Course, c5: Course, b10: Course)
    requires b30.Code == "30" && a20.Code == "20" && c5.Code == "5" && b10.Code == "10"
    ensures CodeKey(b30) == 30 && CodeKey(a20) == 20 && CodeKey(c5) == 5 && CodeKey(b10) == 10
    ensures StringLess(b10.Code, b30.Code)
  {
    ShortCodeValue(b30.Code);
    ShortCodeValue(a20.Code);
    ShortCodeValue(c5.Code);
    ShortCodeValue(b10.Code);
    assert b10.Code[0] == '1' && b30.Code[0] == '3' && a20.Code[0] == '2' && c5.Code[0] == '5';
    assert b10.Code[1] == '0' && b30.Code[1] == '0' && a20.Code[1] == '0';
  }

  /** The teams of the worked example: B holds B/30 then B/10, A and C one course each. */
  lemma {:induction false} ExampleTeams(b30: Course, a20: Course, c5: Course, b10: Course)
    requires b30.Name == b10.Name && a20.Name != b10.Name && c5.Name != b10.Name && a20.Name != c5.Name
    ensures var input := [b30, a20, c5, b10];
      && WithName(input, b10.Name) == [b30, b10]
      && WithName(input, a20.Name) == [a20]
      && WithName(input, c5.Name) == [c5]
  {
    var input := [b30, a20, c5, b10];
    assert input == [b30, a20, c5] + [b10];
    assert [b30, a20, c5] == [b30, a20] + [c5];
    assert [b30, a20] == [b30] + [a20];
    assert [b30] == [] + [b30];
    forall n | n in {b10.Name, a20.Name, c5.Name}
      ensures WithName(input, n) == WithName([], n) + (if b30.Name == n then [b30] else [])
        + (if a20.Name == n then [a20] else [])
        + (if c5.Name == n then [c5] else []) + (if b10.Name == n then [b10] else [])
    {
      WithNameSnoc([b30, a20, c5], b10, n);
      WithNameSnoc([b30, a20], c5, n);
      WithNameSnoc([b30], a20, n);
      WithNameSnoc([], b30, n);
    }
  }

  /**
   * The worked example: from the courses B/30, A/20, C/5, B/10 (name/code),
   * every result the sort may return is C/5, B/10, B/30, A/20. Team B is
   * ranked by its minimum code 10, between C (5) and A (20).
   */
  lemma {:induction false} WorkedExample(b30: Course, a20: Course, c5: Course, b10: Course, r: seq<Course>)
    requires b30.Name == b10.Name && a20.Name != b10.Name && c5.Name != b10.Name && a20.Name != c5.Name
    requires b30.Code == "30" && a20.Code == "20" && c5.Code == "5" && b10.Code == "10"
    requires multiset(r) == multiset([b30, a20, c5, b10])
    requires NamesContiguous(r) && MembersByCode(r) && GroupsByMinCode([b30, a20, c5, b10], r)
    ensures r == [c5, b10, b30, a20]
  {
    var input := [b30, a20, c5, b10];
    ExampleCodes(b30, a20, c5, b10);
    ExampleTeams(b30, a20, c5, b10);
    assert MinCode([b30, b10]) == b10.Code by {
      MinCodeSnoc([b30], b10);
      assert [b30, b10] == [b30] + [b10];
    }
    ghost var teamKey := (x: Course) => Atoi(MinCode(WithName(input, x.Name)));
    assert teamKey(c5) == 5 && teamKey(b10) == 10 && teamKey(b30) == 10 && teamKey(a20) == 20;
    ExampleOrder(r, b30, a20, c5, b10, teamKey);
  }

  /** A value that occurs once is at no other position. */
  lemma {:induction false} OnceMeansDistinct<T>(r: seq<T>, i: nat, j: nat)
    requires i < j < |r| && multiset(r)[r[i]] == 1
    ensures r[i] != r[j]
  {
    assert r == r[..j] + [r[j]] + r[j + 1..];
    assert r[i] in r[..j];
  }

  /** A rearrangement of four distinct courses holds each of them exactly once. */
  lemma {:induction false} ExampleMembers(r: seq<Course>, b30: Course, a20: Course, c5: Course, b10: Course)
    requires b30.Name == b10.Name && a20.Name != b10.Name && c5.Name != b10.Name && a20.Name != c5.Name
    requires b30 != b10
    requires multiset(r) == multiset([b30, a20, c5, b10])
    ensures |r| == 4
    ensures forall k :: 0 <= k < |r| ==>
      (r[k] == c5 || r[k] == b10 || r[k] == b30 || r[k] == a20) && multiset(r)[r[k]] == 1
  {
    forall k | 0 <= k < |r|
      ensures r[k] == c5 || r[k] == b10 || r[k] == b30 || r[k] == a20
    {
      assert r[k] in multiset(r);
    }
    assert |r| == 4 by {
      assert |multiset(r)| == 4;
    }
  }

  /** The ordering argument of the worked example, with the keys already known. */
  lemma {:induction false} ExampleOrder(r: seq<Course>, b30: Course, a20: Course, c5: Course, b10: Course,
                                        teamKey: Course -> int)
    requires b30.Name == b10.Name && a20.Name != b10.Name && c5.Name != b10.Name && a20.Name != c5.Name
    requires CodeKey(b30) == 30 && CodeKey(b10) == 10
    requires teamKey(c5) == 5 && teamKey(b10) == 10 && teamKey(b30) == 10 && teamKey(a20) == 20
    requires multiset(r) == multiset([b30, a20, c5, b10])
    requires MembersByCode(r)
    requires forall i, j :: 0 <= i < j < |r| && r[i].Name != r[j].Name ==> teamKey(r[i]) <= teamKey(r[j])
    ensures r == [c5, b10, b30, a20]
  {
    ExampleMembers(r, b30, a20, c5, b10);
    forall i, j | 0 <= i < j < |r|
      ensures ExampleRank(r[i], c5, b10, b30) < ExampleRank(r[j], c5, b10, b30)
    {
      OnceMeansDistinct(r, i, j);
      if r[i].Name != r[j].Name {
        assert teamKey(r[i]) <= teamKey(r[j]);
      } else {
        assert CodeKey(r[i]) <= CodeKey(r[j]);
      }
    }
    RankedInOrder(r, b30, a20, c5, b10);
  }

  /** Four courses whose ranks strictly increase stand in rank order. */
  lemma {:induction false} RankedInOrder(r: seq<Course>, b30: Course, a20: Course, c5: Course, b10: Course)
    requires |r| == 4
    requires forall k :: 0 <= k < |r| ==> r[k] == c5 || r[k] == b10 || r[k] == b30 || r[k] == a20
    requires forall i, j :: 0 <= i < j < |r| ==> ExampleRank(r[i], c5, b10, b30) < ExampleRank(r[j], c5, b10, b30)
    ensures r == [c5, b10, b30, a20]
  {
    assert ExampleRank(r[0], c5, b10, b30) < ExampleRank(r[1], c5, b10, b30)
      < ExampleRank(r[2], c5, b10, b30) < ExampleRank(r[3], c5, b10, b30);
    assert r[0] == c5 && r[1] == b10 && r[2] == b30 && r[3] == a20;
  }

  // ---------------------------------------------------------------------------
  // Lemmas about concatenating teams
  // ---------------------------------------------------------------------------

  lemma {:induction false} FlattenSnoc(gs: seq<CourseGroup>, g: CourseGroup)
    ensures Flatten(gs + [g]) == Flatten(gs) + g.Courses
  {
    assert (gs + [g])[..|gs|] == gs;
  }

  lemma {:induction false} FlattenAppend(a: seq<CourseGroup>, b: seq<CourseGroup>)
    ensures Flatten(a + b) == Flatten(a) + Flatten(b)
    decreases |b|
  {
    if b != [] {
      var init := b[..|b| - 1];
      var last := b[|b| - 1];
      assert b == init + [last];
      assert a + b == (a + init) + [last];
      FlattenAppend(a, init);
      FlattenSnoc(a + init, last);
      FlattenSnoc(init, last);
      assert (Flatten(a) + Flatten(init)) + last.Courses == Flatten(a) + (Flatten(init) + last.Courses);
    } else {
      assert a + b == a;
    }
  }

  /** Taking one team out of the list takes its members out of the concatenation. */
  lemma {:induction false} FlattenWithout(hs: seq<CourseGroup>, k: nat)
    requires k < |hs|
    ensures multiset(Flatten(hs)) == multiset(Flatten(hs[..k] + hs[k + 1..])) + multiset(hs[k].Courses)
    decreases |hs|
  {
    var init, last := hs[..|hs| - 1], hs[|hs| - 1];
    if k == |hs| - 1 {
      assert hs[..k] + hs[k + 1..] == init;
    } else {
      FlattenWithout(init, k);
      var rest := init[..k] + init[k + 1..];
      SkipBeforeLast(hs, k);
      FlattenSnoc(rest, last);
      assert Flatten(hs) == Flatten(init) + last.Courses;
    }
  }

  /** Leaving out an element before the last one commutes with taking the last one off. */
  lemma {:induction false} SkipBeforeLast<T>(hs: seq<T>, k: nat)
    requires k < |hs| - 1
    ensures var init := hs[..|hs| - 1];
      hs[..k] + hs[k + 1..] == (init[..k] + init[k + 1..]) + [hs[|hs| - 1]] && init[k] == hs[k]
  {
  }

  lemma {:induction false} MultisetWithout<T>(hs: seq<T>, k: nat)
    requires k < |hs|
    ensures multiset(hs[..k] + hs[k + 1..]) == multiset(hs) - multiset{hs[k]}
  {
    assert hs == hs[..k] + [hs[k]] + hs[k + 1..];
  }

  /** Rearranging the teams rearranges their members. */
  lemma {:induction false} FlattenRearranged(gs: seq<CourseGroup>, hs: seq<CourseGroup>)
    requires multiset(gs) == multiset(hs)
    ensures multiset(Flatten(gs)) == multiset(Flatten(hs))
    decreases |gs|
  {
    if gs == [] {
      assert hs == [] by {
        assert |multiset(hs)| == 0;
      }
    } else {
      var last := gs[|gs| - 1];
      var init := gs[..|gs| - 1];
      assert gs == init + [last];
      assert last in multiset(hs);
      var k :| 0 <= k < |hs| && hs[k] == last;
      var rest := hs[..k] + hs[k + 1..];
      MultisetWithout(hs, k);
      assert multiset(init) == multiset(rest);
      FlattenRearranged(init, rest);
      FlattenWithout(hs, k);
      FlattenSnoc(init, last);
    }
  }

  /** Without two teams of one name, no value occurs twice. */
  lemma {:induction false} DistinctTeamsOccurOnce(gs: seq<CourseGroup>, g: CourseGroup)
    requires DistinctNames(gs)
    ensures multiset(gs)[g] <= 1
    decreases |gs|
  {
    if gs != [] {
      var init := gs[..|gs| - 1];
      assert gs == init + [gs[|gs| - 1]];
      DistinctTeamsOccurOnce(init, g);
      if g == gs[|gs| - 1] {
        assert g !in init;
      }
    }
  }

  /** A rearrangement of teams with distinct names still has distinct names. */
  lemma {:induction false} RearrangedDistinct(gs: seq<CourseGroup>, hs: seq<CourseGroup>)
    requires DistinctNames(gs) && multiset(gs) == multiset(hs)
    ensures DistinctNames(hs)
  {
    forall i, j | 0 <= i < j < |hs|
      ensures hs[i].Name != hs[j].Name
    {
      if hs[i] == hs[j] {
        assert hs == hs[..j] + [hs[j]] + hs[j + 1..];
        assert hs[i] in hs[..j];
        assert multiset(hs)[hs[i]] >= 2;
        DistinctTeamsOccurOnce(gs, hs[i]);
      } else {
        assert hs[i] in multiset(gs) && hs[j] in multiset(gs);
        var a :| 0 <= a < |gs| && gs[a] == hs[i];
        var b :| 0 <= b < |gs| && gs[b] == hs[j];
        assert a != b;
      }
    }
  }

  /** What the ordered teams inherit from the collected ones. */
  lemma {:induction false} RearrangedTeams(courses: seq<Course>, groups: seq<CourseGroup>, ordered: seq<CourseGroup>)
    requires multiset(ordered) == multiset(groups)
    requires DistinctNames(groups)
    requires forall k :: 0 <= k < |groups| ==> IsTeam(courses, groups[k])
    requires multiset(Flatten(groups)) == multiset(courses)
    ensures DistinctNames(ordered)
    ensures forall k :: 0 <= k < |ordered| ==> IsTeam(courses, ordered[k])
    ensures multiset(Flatten(ordered)) == multiset(courses)
  {
    RearrangedDistinct(groups, ordered);
    forall k | 0 <= k < |ordered|
      ensures IsTeam(courses, ordered[k])
    {
      assert ordered[k] in multiset(groups);
    }
    FlattenRearranged(groups, ordered);
  }

  lemma {:induction false} FlattenPrefix(gs: seq<CourseGroup>, a: nat, b: nat)
    requires a <= b <= |gs|
    ensures |Flatten(gs[..a])| <= |Flatten(gs[..b])|
    ensures b == a + 1 ==> Flatten(gs[..b]) == Flatten(gs[..a]) + gs[a].Courses
    decreases b - a
  {
    if a < b {
      assert gs[..b][..b - 1] == gs[..b - 1];
      FlattenPrefix(gs, a, b - 1);
    }
  }

  /** Every position of the concatenation lies in one team, at some offset. */
  lemma {:induction false} Locate(gs: seq<CourseGroup>, p: nat) returns (a: nat, o: nat)
    requires p < |Flatten(gs)|
    ensures a < |gs| && o < |gs[a].Courses|
    ensures p == |Flatten(gs[..a])| + o && Flatten(gs)[p] == gs[a].Courses[o]
    decreases |gs|
  {
    var init := gs[..|gs| - 1];
    if p < |Flatten(init)| {
      a, o := Locate(init, p);
      assert init[..a] == gs[..a];
    } else {
      a, o := |gs| - 1, p - |Flatten(init)|;
      assert gs[..a] == init;
    }
  }

  /** Later positions lie in the same team further on, or in a later team. */
  lemma {:induction false} LocatedInOrder(gs: seq<CourseGroup>, p: nat, a: nat, o: nat, q: nat, b: nat, o2: nat)
    requires a < |gs| && b < |gs| && o < |gs[a].Courses| && o2 < |gs[b].Courses|
    requires p == |Flatten(gs[..a])| + o && q == |Flatten(gs[..b])| + o2 && p < q
    ensures a <= b && (a == b ==> o < o2)
  {
    if b < a {
      FlattenPrefix(gs, b, b + 1);
      FlattenPrefix(gs, b + 1, a);
    }
  }

  /** The concatenation of finished teams in order of their keys has the promised order. */
  lemma {:induction false} TeamsInOrder(courses: seq<Course>, gs: seq<CourseGroup>)
    requires DistinctNames(gs)
    requires forall k :: 0 <= k < |gs| ==> IsTeam(courses, gs[k])
    requires SortedBy(gs, MinCodeKey)
    ensures NamesContiguous(Flatten(gs))
    ensures MembersByCode(Flatten(gs))
    ensures GroupsByMinCode(courses, Flatten(gs))
  {
    var r := Flatten(gs);
    forall i, j, k | 0 <= i < j < k < |r| && r[i].Name == r[k].Name
      ensures r[j].Name == r[i].Name
    {
      var a, o := Locate(gs, i);
      var b, o2 := Locate(gs, j);
      var c, o3 := Locate(gs, k);
      LocatedInOrder(gs, i, a, o, j, b, o2);
      LocatedInOrder(gs, j, b, o2, k, c, o3);
      assert gs[a].Name == gs[c].Name;
    }
    forall i, j | 0 <= i < j < |r| && r[i].Name == r[j].Name
      ensures CodeKey(r[i]) <= CodeKey(r[j])
    {
      var a, o := Locate(gs, i);
      var b, o2 := Locate(gs, j);
      LocatedInOrder(gs, i, a, o, j, b, o2);
      assert gs[a].Name == gs[b].Name;
      assert SortedBy(gs[a].Courses, CodeKey);
    }
    forall i, j | 0 <= i < j < |r| && r[i].Name != r[j].Name
      ensures Atoi(MinCode(WithName(courses, r[i].Name))) <= Atoi(MinCode(WithName(courses, r[j].Name)))
    {
      var a, o := Locate(gs, i);
      var b, o2 := Locate(gs, j);
      LocatedInOrder(gs, i, a, o, j, b, o2);
      assert a != b;
      assert MinCodeKey(gs[a]) <= MinCodeKey(gs[b]);
    }
  }
}
