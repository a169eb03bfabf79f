/** Starting the module groups from the configuration: it succeeds exactly when the
    configuration is acceptable, and then no module is in two groups and each total
    is the sum of its weights (message.go, lines 189-235). */
module GroupStartup {
  import opened VerdictSpec
  import opened GroupLaws
  import VerdictExact

  /** One configured module, `<weight> <name>`: split at the space, and with the
      number that the weight parses to, if it does. */
  datatype Weight = Unparsed | Parsed(value: real)
  datatype Entry = Unsplit | Split(weight: Weight, name: string)
  datatype GroupConfig = GroupConfig(name: string, entries: seq<Entry>)

  const KNOWN := {"quotas", "spamassassin", "greylisting", "rspamd"}

  predicate WellFormed(e: Entry) {
    e.Split? && e.name in KNOWN && e.weight.Parsed?
  }

  /** What an entry becomes; only well-formed ones get that far. */
  function MemberOf(e: Entry): Member {
    if WellFormed(e) then Member(e.name, e.weight.value) else Member("", 0.0)
  }

  function MembersOf(entries: seq<Entry>): (ms: seq<Member>)
    ensures |ms| == |entries|
  {
    if entries == [] then [] else MembersOf(entries[..|entries| - 1]) + [MemberOf(entries[|entries| - 1])]
  }

  function GroupOf(name: string, entries: seq<Entry>): Group {
    Group(name, MembersOf(entries), WeightOf(MembersOf(entries)))
  }

  function GroupsOf(configs: seq<GroupConfig>): (groups: seq<Group>)
    ensures |groups| == |configs|
  {
    if configs == [] then []
    else
      var last := configs[|configs| - 1];
      GroupsOf(configs[..|configs| - 1]) + [GroupOf(last.name, last.entries)]
  }

  predicate ConfigOk(g: GroupConfig) {
    g.entries != [] && forall e :: e in g.entries ==> WellFormed(e)
  }

  predicate ConfigsOk(configs: seq<GroupConfig>) {
    forall g :: g in configs ==> ConfigOk(g)
  }

  ghost predicate Acceptable(configs: seq<GroupConfig>) {
    ConfigsOk(configs) && NoneTwice(GroupsOf(configs))
  }

  class ModuleGroup {
    const name: string
    var modules: seq<Member>
    var totalWeight: real

    constructor (name: string)
      ensures this.name == name && modules == [] && totalWeight == 0.0
    {
      this.name, modules, totalWeight := name, [], 0.0;
    }

    function Value(): Group
      reads this
    {
      Group(name, modules, totalWeight)
    }
  }

  function View(groups: seq<ModuleGroup>): (s: seq<Group>)
    reads groups
    ensures |s| == |groups| && forall i :: 0 <= i < |s| ==> s[i] == groups[i].Value()
  {
    if groups == [] then [] else View(groups[..|groups| - 1]) + [groups[|groups| - 1].Value()]
  }

  /** Whether a module is already in some group. */
  method IsTaken(groups: seq<ModuleGroup>, name: string) returns (taken: bool)
    ensures taken <==> AllMatches(View(groups), name) > 0
  {
    ghost var s := View(groups);
    taken := false;
    for i := 0 to |groups|
      invariant taken <==> AllMatches(s[..i], name) > 0
    {
      ghost var before := taken;
      var ms := groups[i].modules;
      for j := 0 to |ms|
        invariant taken <==> before || Matches(ms[..j], name) > 0
      {
        assert ms[..j + 1][..j] == ms[..j];
        if ms[j].name == name {
          taken := true;
        }
      }
      assert ms[..|ms|] == ms;
      assert s[..i + 1][..i] == s[..i];
    }
    assert s[..|groups|] == s;
  }

  /** The groups of the first k configurations and the first j entries of the next. */
  function Partial(configs: seq<GroupConfig>, k: nat, j: nat): seq<Group>
    requires k < |configs| && j <= |configs[k].entries|
  {
    GroupsOf(configs[..k]) + [GroupOf(configs[k].name, configs[k].entries[..j])]
  }

  lemma PartialMatches(configs: seq<GroupConfig>, k: nat, j: nat, name: string)
    requires k < |configs| && j <= |configs[k].entries|
    ensures AllMatches(Partial(configs, k, j), name)
         == AllMatches(GroupsOf(configs[..k]), name) + Matches(MembersOf(configs[k].entries[..j]), name)
  {
    var p := Partial(configs, k, j);
    assert p[..|p| - 1] == GroupsOf(configs[..k]);
  }

  lemma MembersMore(entries: seq<Entry>, j: nat, name: string)
    requires j < |entries|
    ensures Matches(MembersOf(entries[..j + 1]), name)
         == Matches(MembersOf(entries[..j]), name) + if MemberOf(entries[j]).name == name then 1 else 0
    ensures MembersOf(entries[..j + 1]) == MembersOf(entries[..j]) + [MemberOf(entries[j])]
  {
    assert entries[..j + 1][..j] == entries[..j];
    var ms := MembersOf(entries[..j + 1]);
    assert ms[..|ms| - 1] == MembersOf(entries[..j]);
  }

  lemma {:induction false} MembersWithin(entries: seq<Entry>, j: nat, name: string)
    requires j <= |entries|
    ensures Matches(MembersOf(entries[..j]), name) <= Matches(MembersOf(entries), name)
    decreases |entries| - j
  {
    if j == |entries| {
      assert entries[..j] == entries;
    } else {
      MembersMore(entries, j, name);
      MembersWithin(entries, j + 1, name);
    }
  }

  lemma GroupsMore(configs: seq<GroupConfig>, k: nat)
    requires k < |configs|
    ensures GroupsOf(configs[..k + 1]) == Partial(configs, k, |configs[k].entries|)
  {
    assert configs[..k + 1][..k] == configs[..k];
    assert configs[k].entries[..|configs[k].entries|] == configs[k].entries;
  }

  lemma {:induction false} GroupsWithin(configs: seq<GroupConfig>, k: nat, name: string)
    requires k <= |configs|
    ensures AllMatches(GroupsOf(configs[..k]), name) <= AllMatches(GroupsOf(configs), name)
    decreases |configs| - k
  {
    if k == |configs| {
      assert configs[..k] == configs;
    } else {
      GroupsMore(configs, k);
      PartialMatches(configs, k, |configs[k].entries|, name);
      GroupsWithin(configs, k + 1, name);
    }
  }

  /** A module that is already taken makes the configuration unacceptable. */
  lemma TakenTwice(configs: seq<GroupConfig>, k: nat, j: nat)
    requires k < |configs| && j < |configs[k].entries| && WellFormed(configs[k].entries[j])
    requires AllMatches(Partial(configs, k, j), configs[k].entries[j].name) > 0
    ensures !Acceptable(configs)
  {
    var name := configs[k].entries[j].name;
    PartialMatches(configs, k, j, name);
    MembersMore(configs[k].entries, j, name);
    MembersWithin(configs[k].entries, j + 1, name);
    PartialMatches(configs, k, |configs[k].entries|, name);
    GroupsMore(configs, k);
    assert configs[k].entries[..|configs[k].entries|] == configs[k].entries;
    GroupsWithin(configs, k + 1, name);
    assert AllMatches(GroupsOf(configs), name) >= 2;
  }

  /** A module that is not yet taken may be added. */
  lemma OneMoreMember(configs: seq<GroupConfig>, k: nat, j: nat)
    requires k < |configs| && j < |configs[k].entries| && WellFormed(configs[k].entries[j])
    requires NoneTwice(Partial(configs, k, j))
    requires AllMatches(Partial(configs, k, j), configs[k].entries[j].name) == 0
    ensures NoneTwice(Partial(configs, k, j + 1))
  {
    var p := Partial(configs, k, j + 1);
    forall name: string ensures AllMatches(p, name) <= 1 {
      PartialMatches(configs, k, j, name);
      PartialMatches(configs, k, j + 1, name);
      MembersMore(configs[k].entries, j, name);
    }
  }

  lemma WeightMore(ms: seq<Member>, m: Member)
    ensures WeightOf(ms + [m]) == WeightOf(ms) + m.weight
  {
    assert (ms + [m])[..|ms|] == ms;
  }

  /** One more entry changes the last group only. */
  lemma PartialMore(configs: seq<GroupConfig>, k: nat, j: nat)
    requires k < |configs| && j < |configs[k].entries| && WellFormed(configs[k].entries[j])
    ensures var e, p := configs[k].entries[j], Partial(configs, k, j);
            && |p| == k + 1
            && Partial(configs, k, j + 1) == p[..k] + [Group(p[k].name, p[k].members + [MemberOf(e)],
                                                             p[k].total + e.weight.value)]
  {
    hide GroupsOf, WeightOf;
    MembersMore(configs[k].entries, j, "");
    WeightMore(MembersOf(configs[k].entries[..j]), MemberOf(configs[k].entries[j]));
  }

  /** One step of the inner loop. */
  method AddMember(group: ModuleGroup, e: Entry, groups: seq<ModuleGroup>) returns (ok: bool)
    requires group in groups
    modifies group
    ensures ok <==> WellFormed(e) && old(AllMatches(View(groups), e.name)) == 0
    ensures ok ==> group.modules == old(group.modules) + [MemberOf(e)]
                   && group.totalWeight == old(group.totalWeight) + e.weight.value
  {
    if e.Unsplit? || e.name !in KNOWN || e.weight.Unparsed? {
      return false;
    }
    var taken := IsTaken(groups, e.name);
    if taken {
      return false;
    }
    group.totalWeight := group.totalWeight + e.weight.value;
    group.modules := group.modules + [Member(e.name, e.weight.value)];
    return true;
  }

  ghost predicate IsLast(group: ModuleGroup, groups: seq<ModuleGroup>) {
    groups != [] && group == groups[|groups| - 1] && group !in groups[..|groups| - 1]
  }

  lemma Malformed(configs: seq<GroupConfig>, k: nat, j: nat)
    requires k < |configs| && j < |configs[k].entries| && !WellFormed(configs[k].entries[j])
    ensures !Acceptable(configs)
  {
    assert configs[k].entries[j] in configs[k].entries && configs[k] in configs;
  }

  method AddEntry(group: ModuleGroup, groups: seq<ModuleGroup>, ghost configs: seq<GroupConfig>, k: nat, j: nat,
                  e: Entry)
    returns (ok: bool)
    requires IsLast(group, groups) && |groups| == k + 1 <= |configs| && j < |configs[k].entries|
    requires e == configs[k].entries[j]
    requires View(groups) == Partial(configs, k, j) && NoneTwice(View(groups))
    modifies group
    ensures ok ==> WellFormed(e) && View(groups) == Partial(configs, k, j + 1) && NoneTwice(View(groups))
    ensures !ok ==> !Acceptable(configs)
  {
    hide Acceptable, NoneTwice, AllMatches, GroupOf, GroupsOf, MembersOf, WeightOf, WellFormed, MemberOf, Partial;
    ghost var front := groups[..k];
    assert View(groups)[k] == group.Value() && View(groups) == View(front) + [group.Value()];
    ok := AddMember(group, e, groups);
    if !ok {
      if WellFormed(e) {
        TakenTwice(configs, k, j);
      } else {
        Malformed(configs, k, j);
      }
      return;
    }
    assert View(groups) == View(front) + [group.Value()];
    OneMoreMember(configs, k, j);
    PartialMore(configs, k, j);
    assert View(groups) == Partial(configs, k, j + 1);
  }

  /** The inner loop: the entries of the last group. */
  method FillGroup(group: ModuleGroup, groups: seq<ModuleGroup>, ghost configs: seq<GroupConfig>, entries: seq<Entry>)
    returns (ok: bool)
    requires IsLast(group, groups) && |groups| <= |configs| && entries == configs[|groups| - 1].entries
    requires View(groups) == Partial(configs, |groups| - 1, 0) && NoneTwice(View(groups))
    modifies group
    ensures ok ==> View(groups) == GroupsOf(configs[..|groups|]) && NoneTwice(View(groups))
    ensures ok ==> forall e :: e in entries ==> WellFormed(e)
    ensures !ok ==> !Acceptable(configs)
  {
    hide Acceptable, NoneTwice, GroupsOf, Partial, WellFormed, View;
    for j := 0 to |entries|
      invariant View(groups) == Partial(configs, |groups| - 1, j) && NoneTwice(View(groups))
      invariant forall i :: 0 <= i < j ==> WellFormed(entries[i])
    {
      ok := AddEntry(group, groups, configs, |groups| - 1, j, entries[j]);
      if !ok {
        return;
      }
    }
    GroupsMore(configs, |groups| - 1);
    return true;
  }

  datatype Started = Fatal | Started(groups: seq<ModuleGroup>)

  lemma NowLast(group: ModuleGroup, groups: seq<ModuleGroup>)
    requires groups != [] && groups[|groups| - 1] == group
    requires forall i :: 0 <= i < |groups| - 1 ==> groups[i] != group
    ensures IsLast(group, groups)
  {
  }

  lemma NoGroups(configs: seq<GroupConfig>)
    ensures View([]) == GroupsOf(configs[..0]) == [] && NoneTwice([])
  {
  }

  lemma ViewMore(groups: seq<ModuleGroup>, group: ModuleGroup)
    ensures View(groups + [group]) == View(groups) + [group.Value()]
  {
    assert (groups + [group])[..|groups|] == groups;
  }

  lemma Empty(configs: seq<GroupConfig>, k: nat)
    requires k < |configs| && configs[k].entries == []
    ensures !Acceptable(configs)
  {
    assert configs[k] in configs;
  }

  lemma NotEmpty(g: GroupConfig)
    requires g.entries != [] && forall e :: e in g.entries ==> WellFormed(e)
    ensures ConfigOk(g)
  {
  }

  lemma AllOk(configs: seq<GroupConfig>)
    requires NoneTwice(GroupsOf(configs)) && forall i :: 0 <= i < |configs| ==> ConfigOk(configs[i])
    ensures Acceptable(configs)
  {
    hide ConfigOk, NoneTwice, GroupsOf;
  }

  lemma StartsEmpty(configs: seq<GroupConfig>, k: nat)
    requires k < |configs| && NoneTwice(GroupsOf(configs[..k]))
    ensures Partial(configs, k, 0) == GroupsOf(configs[..k]) + [Group(configs[k].name, [], 0.0)]
    ensures NoneTwice(Partial(configs, k, 0))
  {
    assert configs[k].entries[..0] == [];
    var p := Partial(configs, k, 0);
    forall name: string ensures AllMatches(p, name) <= 1 {
      PartialMatches(configs, k, 0, name);
    }
  }

  /** messageStartModuleGroups, with the configured groups in the order in which
      the map gives them. */
  method StartModuleGroups(configs: seq<GroupConfig>) returns (r: Started)
    ensures r.Started? <==> Acceptable(configs)
    ensures r.Started? ==> View(r.groups) == GroupsOf(configs)
  {
    hide Acceptable, NoneTwice, GroupsOf, Partial, ConfigOk, View, IsLast;
    var groups: seq<ModuleGroup> := [];
    NoGroups(configs);
    for k := 0 to |configs|
      invariant |groups| == k && fresh(groups) && View(groups) == GroupsOf(configs[..k]) && NoneTwice(View(groups))
      invariant forall i :: 0 <= i < k ==> ConfigOk(configs[i])
    {
      var group := new ModuleGroup(configs[k].name);
      StartsEmpty(configs, k);
      ViewMore(groups, group);
      groups := groups + [group];
      NowLast(group, groups);
      if configs[k].entries == [] {
        Empty(configs, k);
        return Fatal;
      }
      var ok := FillGroup(group, groups, configs, configs[k].entries);
      if !ok {
        return Fatal;
      }
      NotEmpty(configs[k]);
    }
    assert configs[..|configs|] == configs;
    AllOk(configs);
    return Started(groups);
  }

  lemma {:induction false} PositiveMembers(entries: seq<Entry>)
    requires forall e :: e in entries ==> MemberOf(e).weight > 0.0
    ensures forall m :: m in MembersOf(entries) ==> m.weight > 0.0
    decreases |entries|
  {
    if entries != [] {
      PositiveMembers(entries[..|entries| - 1]);
    }
  }

  lemma {:induction false} AllPositive(configs: seq<GroupConfig>)
    requires forall g, e :: g in configs && e in g.entries ==> MemberOf(e).weight > 0.0
    ensures forall g :: g in GroupsOf(configs) ==> Positive(g)
    decreases |configs|
  {
    if configs != [] {
      var last := configs[|configs| - 1];
      assert last in configs;
      AllPositive(configs[..|configs| - 1]);
      PositiveMembers(last.entries);
    }
  }

  /** With positive weights, an acceptable configuration gives valid groups. */
  lemma AcceptableIsValid(configs: seq<GroupConfig>)
    requires Acceptable(configs)
    requires forall g, e :: g in configs && e in g.entries ==> MemberOf(e).weight > 0.0
    ensures Valid(GroupsOf(configs))
  {
    AllPositive(configs);
  }

  // ----- In plain terms -----

  /** A number and one of the four known modules, split at a space. */
  ghost predicate IsEntry(e: Entry) {
    && e.Split? && e.weight.Parsed?
    && (e.name == "quotas" || e.name == "spamassassin" || e.name == "greylisting" || e.name == "rspamd")
  }

  /** No name is in two entries, of one group or of two. */
  ghost predicate NamesDiffer(configs: seq<GroupConfig>) {
    forall i, j, k, l :: 0 <= i < |configs| && 0 <= j < |configs[i].entries| ==>
      0 <= k < |configs| && 0 <= l < |configs[k].entries| ==>
        configs[i].entries[j].Split? && configs[k].entries[l].Split? ==>
          configs[i].entries[j].name == configs[k].entries[l].name ==> i == k && j == l
  }

  lemma {:induction false} MembersAre(entries: seq<Entry>, j: nat)
    requires j < |entries| && IsEntry(entries[j])
    ensures MembersOf(entries)[j] == Member(entries[j].name, entries[j].weight.value)
    decreases |entries|
  {
    if j < |entries| - 1 {
      MembersAre(entries[..|entries| - 1], j);
    }
  }

  lemma {:induction false} GroupAt(configs: seq<GroupConfig>, k: nat)
    requires k < |configs|
    ensures GroupsOf(configs)[k] == GroupOf(configs[k].name, configs[k].entries)
    decreases |configs|
  {
    if k < |configs| - 1 {
      GroupAt(configs[..|configs| - 1], k);
    }
  }

  /** Each group has its configured name, and a member for each entry, with the name
      and the weight of the entry, in order. */
  lemma GroupsAre(configs: seq<GroupConfig>, k: nat, j: nat)
    requires k < |configs| && j < |configs[k].entries| && IsEntry(configs[k].entries[j])
    ensures |GroupsOf(configs)| == |configs|
    ensures var g, e := GroupsOf(configs)[k], configs[k].entries[j];
            && g.name == configs[k].name && |g.members| == |configs[k].entries|
            && g.members[j] == Member(e.name, e.weight.value) && g.total == WeightOf(g.members)
  {
    GroupAt(configs, k);
    MembersAre(configs[k].entries, j);
  }

  lemma OkIff(configs: seq<GroupConfig>)
    ensures ConfigsOk(configs)
       <==> && (forall k :: 0 <= k < |configs| ==> configs[k].entries != [])
            && (forall k, j :: 0 <= k < |configs| && 0 <= j < |configs[k].entries| ==> IsEntry(configs[k].entries[j]))
  {
    if ConfigsOk(configs) {
      forall k | 0 <= k < |configs| ensures ConfigOk(configs[k]) {
        assert configs[k] in configs;
      }
      forall k, j | 0 <= k < |configs| && 0 <= j < |configs[k].entries| ensures IsEntry(configs[k].entries[j]) {
        assert ConfigOk(configs[k]) && configs[k].entries[j] in configs[k].entries;
      }
    }
  }

  lemma PlacesIff(configs: seq<GroupConfig>)
    requires ConfigsOk(configs)
    ensures VerdictExact.OnePlace(GroupsOf(configs)) <==> NamesDiffer(configs)
  {
    OkIff(configs);
    var groups := GroupsOf(configs);
    forall k | 0 <= k < |configs| ensures |groups[k].members| == |configs[k].entries| {
      GroupsAre(configs, k, 0);
    }
    forall k, j | 0 <= k < |configs| && 0 <= j < |configs[k].entries|
      ensures configs[k].entries[j].Split? && groups[k].members[j].name == configs[k].entries[j].name
    {
      GroupsAre(configs, k, j);
    }
    hide GroupsOf, IsEntry, ConfigsOk;
  }

  lemma AcceptableIs(configs: seq<GroupConfig>)
    ensures Acceptable(configs) <==> ConfigsOk(configs) && NoneTwice(GroupsOf(configs))
  {
  }

  /** Startup accepts exactly the configurations without an empty group, with only
      entries that are a number and a known module, and with no module twice. */
  lemma AcceptableIff(configs: seq<GroupConfig>)
    ensures Acceptable(configs)
       <==> && (forall k :: 0 <= k < |configs| ==> configs[k].entries != [])
            && (forall k, j :: 0 <= k < |configs| && 0 <= j < |configs[k].entries| ==> IsEntry(configs[k].entries[j]))
            && NamesDiffer(configs)
  {
    hide *;
    OkIff(configs);
    if ConfigsOk(configs) {
      VerdictExact.NoneTwiceIff(GroupsOf(configs));
      PlacesIff(configs);
    }
    AcceptableIs(configs);
  }
}
