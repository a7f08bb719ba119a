/** The membership check of a freshly created RSD group. */
module RsdGroup {
  import opened Text

  /** One device of the grouped rbln-smi inventory. */
  datatype Member = Member(group: string, bus: string)

  const GROUP_PREFIX := "/dev/rsd"

  /** A path naming a private group: the prefix and the canonical decimal of a
      positive machine integer. */
  ghost predicate IsGroupPath(path: string) {
    exists id: nat :: 0 < id <= MAX_INT64 && path == GROUP_PREFIX + Itoa(id)
  }

  /** The addresses reported in a group, lower-cased, in report order. */
  function GroupBuses(members: seq<Member>, group: string): seq<string> {
    if members == [] then [] else
      var last := members[|members| - 1];
      GroupBuses(members[..|members| - 1], group) + (if last.group == group then [Lower(last.bus)] else [])
  }

  function LowerSet(buses: seq<string>): set<string> {
    set b | b in buses :: Lower(b)
  }

  lemma CanonicalNumber(group: string)
    ensures (exists n: nat :: 0 < n <= MAX_INT64 && group == Itoa(n)) <==>
              ParseInt(group).Some? && ParseInt(group).value > 0 && group == Itoa(ParseInt(group).value)
  {
    forall n: nat | 0 < n <= MAX_INT64 && group == Itoa(n) ensures ParseInt(group) == Some(n) {
      ParsePrint(n);
    }
  }

  lemma GroupPathCut(path: string)
    ensures IsGroupPath(path) <==>
              GROUP_PREFIX <= path && exists n: nat :: 0 < n <= MAX_INT64 && path[|GROUP_PREFIX|..] == Itoa(n)
  {
    if GROUP_PREFIX <= path {
      assert path == GROUP_PREFIX + path[|GROUP_PREFIX|..];
    }
    forall id: nat | path == GROUP_PREFIX + Itoa(id) ensures GROUP_PREFIX <= path && path[|GROUP_PREFIX|..] == Itoa(id) {
      assert path[..|GROUP_PREFIX|] == GROUP_PREFIX;
    }
  }

  /** Distinct elements drawn from a set, as many as the set has, are the whole set. */
  lemma CountingCovers(seen: set<string>, wanted: set<string>)
    requires seen <= wanted && |seen| == |wanted|
    ensures seen == wanted
  {
    assert |wanted - seen| == |wanted| - |seen|;
  }

  lemma {:induction false} DistinctCount(s: seq<string>)
    requires Distinct(s)
    ensures |set x | x in s| == |s|
  {
    if s != [] {
      var n := |s| - 1;
      DistinctCount(s[..n]);
      assert (set x | x in s) == (set x | x in s[..n]) + {s[n]};
      assert s[n] !in s[..n];
    }
  }

  /** A later report cannot repair an earlier foreign or duplicate member. */
  lemma {:induction false} GroupBusesPrefix(members: seq<Member>, group: string, n: nat)
    requires n <= |members|
    ensures GroupBuses(members[..n], group) <= GroupBuses(members, group)
  {
    if n < |members| {
      var m := |members| - 1;
      GroupBusesPrefix(members[..m], group, n);
      assert members[..m][..n] == members[..n];
    } else {
      assert members[..n] == members;
    }
  }

  /** The group reports the wanted addresses, each exactly once. */
  ghost predicate ExactMembers(members: seq<Member>, group: string, wanted: set<string>) {
    Distinct(GroupBuses(members, group)) && (set b | b in GroupBuses(members, group)) == wanted
  }

  /** How often a group reports an address, up to case. */
  ghost function Reports(members: seq<Member>, group: string, bus: string): nat {
    HowMany(|members|, (i: nat) => i < |members| && members[i].group == group && Lower(members[i].bus) == bus)
  }

  lemma {:induction false} ReportsCounted(members: seq<Member>, group: string, bus: string)
    ensures multiset(GroupBuses(members, group))[bus] == Reports(members, group, bus)
  {
    if members != [] {
      var n := |members| - 1;
      ReportsCounted(members[..n], group, bus);
      var here := (i: nat) => i < |members| && members[i].group == group && Lower(members[i].bus) == bus;
      var before := (i: nat) => i < n && members[..n][i].group == group && Lower(members[..n][i].bus) == bus;
      HowManyStep(n, here);
      HowManySame(n, before, here);
    }
  }

  lemma {:induction false} DistinctOccursOnce(s: seq<string>, x: string)
    requires Distinct(s)
    ensures multiset(s)[x] == if x in s then 1 else 0
  {
    if s != [] {
      var n := |s| - 1;
      DistinctOccursOnce(s[..n], x);
      assert s == s[..n] + [s[n]];
    }
  }

  lemma OccursOnceDistinct(s: seq<string>)
    requires forall x :: multiset(s)[x] <= 1
    ensures Distinct(s)
  {
    forall i: nat, j: nat | i < j < |s| ensures s[i] != s[j] {
      assert s == s[..j] + s[j..];
      assert s[i] in multiset(s[..j]) && s[j] in multiset(s[j..]) by { assert s[..j][i] == s[i] && s[j..][0] == s[j]; }
      assert multiset(s) == multiset(s[..j]) + multiset(s[j..]);
      assert multiset(s)[s[i]] <= 1;
    }
  }

  /** Exact membership counted: the group reports every requested address once, up to case, and no other. */
  lemma ExactMembersCounted(members: seq<Member>, group: string, expected: seq<string>)
    ensures ExactMembers(members, group, LowerSet(expected)) <==>
              forall bus :: Reports(members, group, bus) == if exists e :: e in expected && Lower(e) == bus then 1 else 0
  {
    var buses := GroupBuses(members, group);
    forall bus ensures multiset(buses)[bus] == Reports(members, group, bus) && (bus in buses <==> multiset(buses)[bus] > 0) {
      ReportsCounted(members, group, bus);
      assert bus in buses <==> bus in multiset(buses);
    }
    forall bus ensures bus in LowerSet(expected) <==> exists e :: e in expected && Lower(e) == bus {}
    if Distinct(buses) {
      forall bus ensures multiset(buses)[bus] == if bus in buses then 1 else 0 { DistinctOccursOnce(buses, bus); }
    }
    if forall bus :: Reports(members, group, bus) == if bus in LowerSet(expected) then 1 else 0 {
      OccursOnceDistinct(buses);
    }
  }

  lemma GroupStep(members: seq<Member>, group: string, i: nat)
    requires i < |members|
    ensures GroupBuses(members[..i + 1], group) ==
              GroupBuses(members[..i], group) + (if members[i].group == group then [Lower(members[i].bus)] else [])
  {
    assert members[..i + 1][..i] == members[..i];
  }

  /** A foreign or repeated member cannot be made good by later ones. */
  lemma BadMember(members: seq<Member>, group: string, wanted: set<string>, i: nat)
    requires i < |members| && members[i].group == group
    requires var bus := Lower(members[i].bus); bus !in wanted || bus in GroupBuses(members[..i], group)
    ensures !ExactMembers(members, group, wanted)
  {
    var before, all, bus := GroupBuses(members[..i], group), GroupBuses(members, group), Lower(members[i].bus);
    GroupStep(members, group, i);
    GroupBusesPrefix(members, group, i + 1);
    assert all[|before|] == bus;
    assert bus in all;
    if bus in before {
      var j :| 0 <= j < |before| && before[j] == bus;
      assert all[j] == bus;
    }
  }

  /** validateRSDMembership succeeds exactly when the path names a private
      group, something was requested, and the group reports the requested
      addresses, up to case, each exactly once; the group then has as many
      members as there are distinct requested addresses. */
  method ValidateRSDMembership(path: string, expected: seq<string>, members: seq<Member>) returns (ok: bool)
    ensures ok <==> IsGroupPath(path) && expected != [] &&
                    ExactMembers(members, path[|GROUP_PREFIX|..], LowerSet(expected))
    ensures ok ==> |GroupBuses(members, path[|GROUP_PREFIX|..])| == |LowerSet(expected)|
  {
    GroupPathCut(path);
    if !(GROUP_PREFIX <= path) {
      return false;
    }
    var group := path[|GROUP_PREFIX|..];
    CanonicalNumber(group);
    var id := ParseInt(group);
    if id.None? || id.value <= 0 || group != Itoa(id.value) {
      return false;
    }
    assert IsGroupPath(path);
    ok := HasExactMembers(group, expected, members);
  }

  /** The second half of validateRSDMembership, once the group number is known to be canonical. */
  method HasExactMembers(group: string, expected: seq<string>, members: seq<Member>) returns (ok: bool)
    ensures ok <==> expected != [] && ExactMembers(members, group, LowerSet(expected))
    ensures ok ==> |GroupBuses(members, group)| == |LowerSet(expected)|
  {
    var wanted: set<string> := {};
    for i := 0 to |expected|
      invariant wanted == LowerSet(expected[..i])
    {
      assert expected[..i + 1] == expected[..i] + [expected[i]];
      wanted := wanted + {Lower(expected[i])};
    }
    assert expected[..|expected|] == expected;
    assert expected != [] ==> Lower(expected[0]) in wanted;
    if |wanted| == 0 {
      return false;
    }
    var seen: set<string> := {};
    for i := 0 to |members|
      invariant seen == set b | b in GroupBuses(members[..i], group)
      invariant Distinct(GroupBuses(members[..i], group))
      invariant seen <= wanted
    {
      GroupStep(members, group, i);
      if members[i].group == group {
        var bus := Lower(members[i].bus);
        if bus !in wanted || bus in seen {
          BadMember(members, group, wanted, i);
          return false;
        }
        seen := seen + {bus};
      }
    }
    assert members[..|members|] == members;
    if |seen| == |wanted| {
      CountingCovers(seen, wanted);
      DistinctCount(GroupBuses(members, group));
    }
    return |seen| == |wanted|;
  }
}
