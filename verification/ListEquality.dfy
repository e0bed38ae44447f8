/**
 Equality of projects, software stacks and permission profiles. Lists count as equal when they are
 equally long and every element of the right one occurs in the left one.
 */
module ListEquality {
  import opened Lists
  import opened Options
  import M = Memory

  predicate SameMembers<T(==)>(xs: seq<T>, ys: seq<T>) {
    |xs| == |ys| && forall y | y in ys :: y in xs
  }

  lemma {:induction false} NoDuplicatesCountOnce<T>(xs: seq<T>, x: T)
    requires NoDuplicates(xs)
    ensures multiset(xs)[x] <= 1
  {
    if xs != [] {
      var before, last := xs[..|xs| - 1], xs[|xs| - 1];
      NoDuplicatesCountOnce(before, x);
      assert xs == before + [last];
      assert last !in before;
      assert multiset(xs) == multiset(before) + multiset{last};
    }
  }

  /** When the right list has no duplicates, the one-way test decides whether the lists are permutations. */
  lemma SameMembersIsPermutation<T(!new)>(xs: seq<T>, ys: seq<T>)
    requires NoDuplicates(ys)
    ensures SameMembers(xs, ys) <==> multiset(xs) == multiset(ys)
  {
    if SameMembers(xs, ys) {
      forall y ensures multiset(ys)[y] <= multiset(xs)[y] {
        NoDuplicatesCountOnce(ys, y);
        assert y in ys ==> y in xs;
        assert y in multiset(ys) <==> y in ys;
      }
      assert multiset(ys) <= multiset(xs);
      assert |multiset(xs) - multiset(ys)| == |xs| - |ys| == 0;
      assert multiset(xs) == multiset(ys) + (multiset(xs) - multiset(ys));
    }
    if multiset(xs) == multiset(ys) {
      assert |multiset(xs)| == |xs| && |multiset(ys)| == |ys|;
      assert forall y | y in ys :: y in multiset(ys);
    }
  }

  /** With a repeated element on the right, some list passes the test one way only. */
  lemma RepetitionBreaksSymmetry<T>(ys: seq<T>, other: T) returns (xs: seq<T>)
    requires !NoDuplicates(ys) && other !in ys
    ensures SameMembers(xs, ys) && !SameMembers(ys, xs)
  {
    var i, j :| 0 <= i < j < |ys| && ys[i] == ys[j];
    xs := ys[j := other];
    forall y | y in ys ensures y in xs {
      var k :| 0 <= k < |ys| && ys[k] == y;
      assert xs[if k == j then i else k] == y;
    }
    assert xs[j] == other;
  }

  lemma SymmetricWithoutDuplicates<T(!new)>(xs: seq<T>, ys: seq<T>)
    requires NoDuplicates(ys) && SameMembers(xs, ys)
    ensures SameMembers(ys, xs)
  {
    SameMembersIsPermutation(xs, ys);
    forall x | x in xs ensures x in ys {
      assert x in multiset(xs);
    }
  }

  /** A text longer than the text of any element. */
  ghost function LongerThan<T(!new)>(ys: seq<T>, text: T -> string): (s: string)
    ensures forall y | y in ys :: |text(y)| < |s|
  {
    if ys == [] then "x"
    else
      assert ys == ys[..|ys| - 1] + [ys[|ys| - 1]];
      LongerThan(ys[..|ys| - 1], text) + text(ys[|ys| - 1])
  }

  /** A list of texts can be on the right of the test, whatever is on the left, exactly when it has no duplicates. */
  lemma SameMembersSymmetricExactly(ys: seq<string>)
    ensures (forall xs :: SameMembers(xs, ys) ==> SameMembers(ys, xs)) <==> NoDuplicates(ys)
  {
    if NoDuplicates(ys) {
      forall xs | SameMembers(xs, ys) ensures SameMembers(ys, xs) {
        SymmetricWithoutDuplicates(xs, ys);
      }
    } else {
      var xs := RepetitionBreaksSymmetry(ys, LongerThan(ys, y => y));
    }
  }

  /** For example, [x, y] equals [x, x], but not conversely. */
  lemma DuplicatesBreakSymmetry<T>(x: T, y: T)
    requires x != y
    ensures SameMembers([x, y], [x, x]) && !SameMembers([x, x], [x, y])
  {
    assert y in [x, y];
    assert y !in [x, x];
  }

  function ListOf<T>(xs: Option<seq<T>>): seq<T> {
    if xs.Some? then xs.value else []
  }

  // ----- Projects -----

  datatype KeyValue = KeyValue(key: Option<string>, value: Option<string>)

  datatype Budget = Budget(name: Option<string>, limit: Option<real>, actual: Option<real>, forecasted: Option<real>)

  datatype Script = Script(location: string, arguments: Option<seq<string>>)

  datatype ScriptEvents = ScriptEvents(onStart: Option<seq<Script>>, onConfigured: Option<seq<Script>>)

  datatype Scripts = Scripts(windows: Option<ScriptEvents>, linux: Option<ScriptEvents>)

  datatype Project = Project(
    projectId: Option<string>,
    name: Option<string>,
    title: Option<string>,
    description: Option<string>,
    enabled: Option<bool>,
    ldapGroups: Option<seq<string>>,
    users: Option<seq<string>>,
    enableBudgets: Option<bool>,
    budget: Option<Budget>,
    tags: Option<seq<KeyValue>>,
    securityGroups: Option<seq<string>>,
    policyArns: Option<seq<string>>,
    scripts: Option<Scripts>)

  predicate ProjectEquals(p: Project, q: Project) {
    && p.name == q.name
    && p.title == q.title
    && p.description == q.description
    && p.enableBudgets == q.enableBudgets
    && p.budget == q.budget
    && SameMembers(ListOf(p.ldapGroups), ListOf(q.ldapGroups))
    && SameMembers(ListOf(p.users), ListOf(q.users))
    && SameMembers(ListOf(p.tags), ListOf(q.tags))
    && SameMembers(ListOf(p.policyArns), ListOf(q.policyArns))
    && SameMembers(ListOf(p.securityGroups), ListOf(q.securityGroups))
    && p.scripts == q.scripts
  }

  ghost predicate DuplicateFree(p: Project) {
    && NoDuplicates(ListOf(p.ldapGroups)) && NoDuplicates(ListOf(p.users)) && NoDuplicates(ListOf(p.tags))
    && NoDuplicates(ListOf(p.policyArns)) && NoDuplicates(ListOf(p.securityGroups))
  }

  /** What a project is about when the order of its lists is forgotten. */
  datatype ProjectContent = ProjectContent(
    texts: seq<Option<string>>, enableBudgets: Option<bool>, budget: Option<Budget>,
    ldapGroups: multiset<string>, users: multiset<string>, tags: multiset<KeyValue>,
    policyArns: multiset<string>, securityGroups: multiset<string>, scripts: Option<Scripts>)

  ghost function ContentOfProject(p: Project): ProjectContent {
    ProjectContent([p.name, p.title, p.description], p.enableBudgets, p.budget,
                   multiset(ListOf(p.ldapGroups)), multiset(ListOf(p.users)), multiset(ListOf(p.tags)),
                   multiset(ListOf(p.policyArns)), multiset(ListOf(p.securityGroups)), p.scripts)
  }

  /** Projects equal a duplicate-free project exactly when they have the same content. */
  lemma ProjectEqualsExactly(p: Project, q: Project)
    requires DuplicateFree(q)
    ensures ProjectEquals(p, q) <==> ContentOfProject(p) == ContentOfProject(q)
  {
    SameMembersIsPermutation(ListOf(p.ldapGroups), ListOf(q.ldapGroups));
    SameMembersIsPermutation(ListOf(p.users), ListOf(q.users));
    SameMembersIsPermutation(ListOf(p.tags), ListOf(q.tags));
    SameMembersIsPermutation(ListOf(p.policyArns), ListOf(q.policyArns));
    SameMembersIsPermutation(ListOf(p.securityGroups), ListOf(q.securityGroups));
    var texts, texts' := [p.name, p.title, p.description], [q.name, q.title, q.description];
    assert texts == texts' ==> texts[0] == texts'[0] && texts[1] == texts'[1] && texts[2] == texts'[2];
  }

  /** Equality is reflexive and transitive; so on duplicate-free projects it is an equivalence relation. */
  lemma ProjectEqualsIsEquivalence(p: Project, q: Project, r: Project)
    ensures ProjectEquals(p, p)
    ensures ProjectEquals(p, q) && ProjectEquals(q, r) ==> ProjectEquals(p, r)
    ensures DuplicateFree(q) && ProjectEquals(p, q) ==> ProjectEquals(q, p)
  {
    if DuplicateFree(q) && ProjectEquals(p, q) {
      SymmetricWithoutDuplicates(ListOf(p.ldapGroups), ListOf(q.ldapGroups));
      SymmetricWithoutDuplicates(ListOf(p.users), ListOf(q.users));
      SymmetricWithoutDuplicates(ListOf(p.tags), ListOf(q.tags));
      SymmetricWithoutDuplicates(ListOf(p.policyArns), ListOf(q.policyArns));
      SymmetricWithoutDuplicates(ListOf(p.securityGroups), ListOf(q.securityGroups));
    }
  }

  function OptionText(text: Option<string>): string {
    if text.Some? then text.value else ""
  }

  function KeyText(tag: KeyValue): string {
    OptionText(tag.key)
  }

  /** Another project that equals `q` although `q` does not equal it. */
  lemma RepetitionBreaksProjectSymmetry(q: Project) returns (p: Project)
    requires !DuplicateFree(q)
    ensures ProjectEquals(p, q) && !ProjectEquals(q, p)
  {
    if !NoDuplicates(ListOf(q.ldapGroups)) {
      var xs := RepetitionBreaksSymmetry(ListOf(q.ldapGroups), LongerThan(ListOf(q.ldapGroups), y => y));
      p := q.(ldapGroups := Some(xs));
    } else if !NoDuplicates(ListOf(q.users)) {
      var xs := RepetitionBreaksSymmetry(ListOf(q.users), LongerThan(ListOf(q.users), y => y));
      p := q.(users := Some(xs));
    } else if !NoDuplicates(ListOf(q.tags)) {
      var xs := RepetitionBreaksSymmetry(ListOf(q.tags), KeyValue(Some(LongerThan(ListOf(q.tags), KeyText)), None));
      p := q.(tags := Some(xs));
    } else if !NoDuplicates(ListOf(q.policyArns)) {
      var xs := RepetitionBreaksSymmetry(ListOf(q.policyArns), LongerThan(ListOf(q.policyArns), y => y));
      p := q.(policyArns := Some(xs));
    } else {
      var xs := RepetitionBreaksSymmetry(ListOf(q.securityGroups), LongerThan(ListOf(q.securityGroups), y => y));
      p := q.(securityGroups := Some(xs));
    }
  }

  /** Whatever equals a project is equal the other way round exactly when the project is duplicate-free. */
  lemma ProjectEqualsSymmetricExactly(q: Project)
    ensures (forall p :: ProjectEquals(p, q) ==> ProjectEquals(q, p)) <==> DuplicateFree(q)
  {
    if DuplicateFree(q) {
      forall p | ProjectEquals(p, q) ensures ProjectEquals(q, p) {
        ProjectEqualsIsEquivalence(p, q, p);
      }
    } else {
      var p := RepetitionBreaksProjectSymmetry(q);
    }
  }

  // ----- Software stacks -----

  datatype SoftwareStack = SoftwareStack(
    stackId: Option<string>,
    baseOs: Option<string>,
    name: Option<string>,
    description: Option<string>,
    amiId: Option<string>,
    minStorage: Option<M.Memory>,
    minRam: Option<M.Memory>,
    architecture: Option<string>,
    gpu: Option<string>,
    projects: Option<seq<Project>>)

  /** Quantities are equal when they have the same number of bytes; none equals only none. */
  function Bytes(m: Option<M.Memory>): Option<int> {
    if m.Some? then Some(M.ByteCount(m.value)) else None
  }

  function ProjectIds(projects: Option<seq<Project>>): seq<Option<string>> {
    var ps := ListOf(projects);
    seq(|ps|, i requires 0 <= i < |ps| => ps[i].projectId)
  }

  predicate StackEquals(s: SoftwareStack, t: SoftwareStack) {
    && s.baseOs == t.baseOs
    && s.name == t.name
    && s.description == t.description
    && s.amiId == t.amiId
    && Bytes(s.minStorage) == Bytes(t.minStorage)
    && Bytes(s.minRam) == Bytes(t.minRam)
    && s.gpu == t.gpu
    && SameMembers(ProjectIds(s.projects), ProjectIds(t.projects))
  }

  /** What a stack is compared by when the order of its projects is forgotten. */
  datatype StackContent = StackContent(
    texts: seq<Option<string>>, minStorage: Option<int>, minRam: Option<int>, projectIds: multiset<Option<string>>)

  ghost function ContentOfStack(s: SoftwareStack): StackContent {
    StackContent([s.baseOs, s.name, s.description, s.amiId, s.gpu], Bytes(s.minStorage), Bytes(s.minRam),
                 multiset(ProjectIds(s.projects)))
  }

  /** Stacks equal a stack with distinct project ids exactly when they have the same content. */
  lemma StackEqualsExactly(s: SoftwareStack, t: SoftwareStack)
    requires NoDuplicates(ProjectIds(t.projects))
    ensures StackEquals(s, t) <==> ContentOfStack(s) == ContentOfStack(t)
  {
    SameMembersIsPermutation(ProjectIds(s.projects), ProjectIds(t.projects));
    var texts, texts' := ContentOfStack(s).texts, ContentOfStack(t).texts;
    assert texts == texts' ==> texts[0] == texts'[0] && texts[1] == texts'[1] && texts[2] == texts'[2]
                               && texts[3] == texts'[3] && texts[4] == texts'[4];
  }

  /** Equality is reflexive and transitive; on stacks with distinct project ids it is an equivalence relation. */
  lemma StackEqualsIsEquivalence(s: SoftwareStack, t: SoftwareStack, u: SoftwareStack)
    ensures StackEquals(s, s)
    ensures StackEquals(s, t) && StackEquals(t, u) ==> StackEquals(s, u)
    ensures NoDuplicates(ProjectIds(t.projects)) && StackEquals(s, t) ==>
            StackEquals(t, s) && multiset(ProjectIds(s.projects)) == multiset(ProjectIds(t.projects))
  {
    if NoDuplicates(ProjectIds(t.projects)) && StackEquals(s, t) {
      SymmetricWithoutDuplicates(ProjectIds(s.projects), ProjectIds(t.projects));
      SameMembersIsPermutation(ProjectIds(s.projects), ProjectIds(t.projects));
    }
  }

  function BareProject(projectId: Option<string>): Project {
    Project(projectId, None, None, None, None, None, None, None, None, None, None, None, None)
  }

  /** Whatever equals a stack is equal the other way round exactly when the stack's project ids are all different. */
  lemma StackEqualsSymmetricExactly(t: SoftwareStack)
    ensures (forall s :: StackEquals(s, t) ==> StackEquals(t, s)) <==> NoDuplicates(ProjectIds(t.projects))
  {
    var ids := ProjectIds(t.projects);
    if NoDuplicates(ids) {
      forall s | StackEquals(s, t) ensures StackEquals(t, s) {
        SymmetricWithoutDuplicates(ProjectIds(s.projects), ids);
      }
    } else {
      var xs := RepetitionBreaksSymmetry(ids, Some(LongerThan(ids, OptionText)));
      var s := t.(projects := Some(seq(|xs|, i requires 0 <= i < |xs| => BareProject(xs[i]))));
      assert ProjectIds(s.projects) == xs;
      assert StackEquals(s, t) && !StackEquals(t, s);
    }
  }

  // ----- Permission profiles -----

  datatype Permission = Permission(
    key: Option<string>, name: Option<string>, description: Option<string>, enabled: Option<bool>)

  datatype PermissionProfile = PermissionProfile(
    profileId: Option<string>,
    title: Option<string>,
    description: Option<string>,
    permissions: Option<seq<Permission>>)

  predicate ProfileEquals(p: PermissionProfile, q: PermissionProfile) {
    && p.profileId == q.profileId
    && p.title == q.title
    && p.description == q.description
    && SameMembers(ListOf(p.permissions), ListOf(q.permissions))
  }

  /** Profiles equal a profile without repeated permissions exactly when all but the order of these agrees. */
  lemma ProfileEqualsExactly(p: PermissionProfile, q: PermissionProfile)
    requires NoDuplicates(ListOf(q.permissions))
    ensures ProfileEquals(p, q) <==>
      && [p.profileId, p.title, p.description] == [q.profileId, q.title, q.description]
      && multiset(ListOf(p.permissions)) == multiset(ListOf(q.permissions))
  {
    SameMembersIsPermutation(ListOf(p.permissions), ListOf(q.permissions));
    var texts, texts' := [p.profileId, p.title, p.description], [q.profileId, q.title, q.description];
    assert texts == texts' ==> texts[0] == texts'[0] && texts[1] == texts'[1] && texts[2] == texts'[2];
  }

  /** Equality is reflexive and transitive; on profiles without repeated permissions it is an equivalence relation. */
  lemma ProfileEqualsIsEquivalence(p: PermissionProfile, q: PermissionProfile, r: PermissionProfile)
    ensures ProfileEquals(p, p)
    ensures ProfileEquals(p, q) && ProfileEquals(q, r) ==> ProfileEquals(p, r)
    ensures NoDuplicates(ListOf(q.permissions)) && ProfileEquals(p, q) ==>
            ProfileEquals(q, p) && multiset(ListOf(p.permissions)) == multiset(ListOf(q.permissions))
  {
    if NoDuplicates(ListOf(q.permissions)) && ProfileEquals(p, q) {
      SymmetricWithoutDuplicates(ListOf(p.permissions), ListOf(q.permissions));
      SameMembersIsPermutation(ListOf(p.permissions), ListOf(q.permissions));
    }
  }

  function PermissionText(permission: Permission): string {
    OptionText(permission.key)
  }

  /** Whatever equals a profile is equal the other way round exactly when the profile repeats no permission. */
  lemma ProfileEqualsSymmetricExactly(q: PermissionProfile)
    ensures (forall p :: ProfileEquals(p, q) ==> ProfileEquals(q, p)) <==> NoDuplicates(ListOf(q.permissions))
  {
    var permissions := ListOf(q.permissions);
    if NoDuplicates(permissions) {
      forall p | ProfileEquals(p, q) ensures ProfileEquals(q, p) {
        SymmetricWithoutDuplicates(ListOf(p.permissions), permissions);
      }
    } else {
      var key := LongerThan(permissions, PermissionText);
      var xs := RepetitionBreaksSymmetry(permissions, Permission(Some(key), None, None, None));
      var p := q.(permissions := Some(xs));
      assert ProfileEquals(p, q) && !ProfileEquals(q, p);
    }
  }
}
