// The quorum of core/src/cluster/cluster_index.cc: choosing members and recording their rounds.
module Quorums {
  import opened Common
  import opened QuorumSpec

  datatype Status = Joined | Training | Delivered | Dormant | Dropped | Waitlisted | Blacklisted | Exited

  class ClusterQuorum {
    const host: string
    const port: string
    var status: Status
    var rounds: int

    // The source leaves rounds unset; it is given here.
    constructor (host: string, port: string, rounds: int)
      ensures this.host == host && this.port == port && this.rounds == rounds && status == Joined
    {
      this.host, this.port, this.rounds, status := host, port, rounds, Joined;
    }
  }

  function NameOf(host: string, port: string): string { host + ":" + port }

  // quorumUpdate takes every member to be local.
  const LOCAL := "127.0.0.1"

  function Names(ports: seq<string>): (r: seq<string>)
    ensures |r| == |ports|
  {
    seq(|ports|, i requires 0 <= i < |ports| => NameOf(LOCAL, ports[i]))
  }

  class ClusterIndex {
    var quorum: map<string, ClusterQuorum>

    constructor ()
      ensures quorum == map[]
    {
      quorum := map[];
    }

    // Every member is filed under its own name.
    ghost predicate Valid()
      reads this
    {
      forall name | name in quorum :: name == NameOf(quorum[name].host, quorum[name].port)
    }

    ghost predicate AllLocal()
      reads this
    {
      forall name | name in quorum :: quorum[name].host == LOCAL
    }

    ghost function RoundsServed(): (r: Rounds)
      reads this, quorum.Values
      ensures r.Keys == quorum.Keys
    {
      map name | name in quorum :: quorum[name].rounds
    }

    method Enter(member: ClusterQuorum)
      requires Valid()
      modifies this
      ensures Valid() && quorum == old(quorum)[member.host + ":" + member.port := member]
    {
      quorum := quorum[member.host + ":" + member.port := member];
    }

    // The members, in any order.
    method Members() returns (vec: seq<ClusterQuorum>)
      requires Valid()
      ensures Enumerates(vec)
    {
      vec := [];
      var left := quorum.Keys;
      while left != {}
        invariant left <= quorum.Keys
        invariant forall i | 0 <= i < |vec| :: IsMember(vec[i]) && NameOf(vec[i].host, vec[i].port) !in left
        invariant Distinct(vec)
        invariant forall name | name in quorum && name !in left :: quorum[name] in vec
        invariant |vec| + |left| == |quorum|
        decreases |left|
      {
        var name :| name in left;
        vec := vec + [quorum[name]];
        left := left - {name};
      }
    }

    ghost predicate IsMember(q: ClusterQuorum)
      reads this
    {
      NameOf(q.host, q.port) in quorum && quorum[NameOf(q.host, q.port)] == q
    }

    ghost predicate Enumerates(vec: seq<ClusterQuorum>)
      reads this
    {
      && Distinct(vec) && |vec| == |quorum|
      && (forall i | 0 <= i < |vec| :: IsMember(vec[i]))
      && (forall name | name in quorum :: quorum[name] in vec)
    }

    // The ports of the members with these names.
    ghost predicate Belong(ports: seq<string>, names: seq<string>)
      reads this
    {
      |ports| == |names| && forall i | 0 <= i < |names| :: names[i] in quorum && quorum[names[i]].port == ports[i]
    }

    // Nothing is chosen when more members are asked for than there are; the comparison is without
    // sign, so a negative number is more than there are.
    method QuorumSelect(num: int) returns (ports: seq<string>)
      requires Valid()
      ensures 0 <= num <= |quorum| ==> exists names :: Belong(ports, names) && LeastServed(RoundsServed(), names, num)
      ensures 0 <= num <= |quorum| && AllLocal() ==> LeastServed(RoundsServed(), Names(ports), num)
      ensures !(0 <= num <= |quorum|) ==> ports == []
    {
      hide NameOf, LeastServed;
      var members := Members();
      var vec := Sort(members);
      SortedEnumerates(this, members, vec);
      ports := [];
      if num < 0 || num > |vec| {
        return;
      }
      var i := 0;
      while i < num
        invariant 0 <= i <= num && |ports| == i
        invariant forall k | 0 <= k < i :: ports[k] == vec[k].port
      {
        ports := ports + [vec[i].port];
        i := i + 1;
      }
      ghost var names := seq(num, k requires 0 <= k < num => NameOf(vec[k].host, vec[k].port));
      PrefixIsLeastServed(this, vec, names);
      PrefixBelongs(this, vec, names, ports);
    }

    // Each mention of a port is one more round, and the member becomes dormant.
    method QuorumUpdate(ports: seq<string>)
      requires Valid() && forall i | 0 <= i < |ports| :: NameOf(LOCAL, ports[i]) in quorum
      modifies quorum.Values
      ensures RoundsServed() == Served(old(RoundsServed()), Names(ports))
      ensures StatusOfAll() == MadeDormant(old(StatusOfAll()), Names(ports))
    {
      hide NameOf, Served, MadeDormant, RoundsServed, StatusOfAll, Valid;
      ghost var names, rounds, status := Names(ports), RoundsServed(), StatusOfAll();
      var i := 0;
      NoMention(rounds, status);
      assert names[..0] == [];
      while i < |ports|
        invariant 0 <= i <= |ports|
        invariant RoundsServed() == Served(rounds, names[..i])
        invariant StatusOfAll() == MadeDormant(status, names[..i])
      {
        var name := NameOf(LOCAL, ports[i]);
        assert names[..i + 1] == names[..i] + [name];
        ServedSnoc(rounds, names[..i], name);
        DormantSnoc(status, names[..i], name);
        Serve(name);
        i := i + 1;
      }
      assert names[..i] == names;
    }

    // One round of training, as in core/src/federate/federator.cc:35-46: members are selected and their round
    // is recorded.
    method ServeRound(num: int) returns (ghost chosen: seq<string>)
      requires Valid() && AllLocal()
      modifies quorum.Values
      ensures |chosen| == (if 0 <= num <= |quorum| then num else 0)
      ensures LeastServed(old(RoundsServed()), chosen, |chosen|)
      ensures RoundsServed() == Served(old(RoundsServed()), chosen)
    {
      hide LeastServed, Served, NameOf, Valid, AllLocal, RoundsServed;
      ghost var rounds := RoundsServed();
      var ports := QuorumSelect(num);
      chosen := Names(ports);
      assert RoundsServed() == rounds;
      if 0 <= num <= |quorum| {
        ChosenAreMembers(this, chosen, num);
      } else {
        assert chosen == [];
        NothingChosen(RoundsServed());
      }
      assert forall i | 0 <= i < |ports| :: chosen[i] == NameOf(LOCAL, ports[i]);
      assert forall i | 0 <= i < |ports| :: NameOf(LOCAL, ports[i]) in quorum;
      QuorumUpdate(ports);
    }

    // Any number of rounds: a fair run.
    method ServeRounds(nums: seq<int>) returns (ghost choices: seq<seq<string>>)
      requires Valid() && AllLocal()
      modifies quorum.Values
      ensures |choices| == |nums|
      ensures forall i | 0 <= i < |nums| :: |choices[i]| == if 0 <= nums[i] <= |quorum| then nums[i] else 0
      ensures Fair(old(RoundsServed()), choices) && RoundsServed() == RoundsAfter(old(RoundsServed()), choices)
    {
      hide LeastServed, Served;
      choices := [];
      ghost var rounds := RoundsServed();
      var i := 0;
      while i < |nums|
        invariant 0 <= i <= |nums| && |choices| == i
        invariant forall k | 0 <= k < i :: |choices[k]| == if 0 <= nums[k] <= |quorum| then nums[k] else 0
        invariant Fair(rounds, choices) && RoundsServed() == RoundsAfter(rounds, choices)
      {
        ghost var chosen := ServeRound(nums[i]);
        FairSnoc(rounds, choices, chosen);
        choices := choices + [chosen];
        i := i + 1;
      }
    }

    // t rounds of k places: from equal counts, each of the n members serves tk/n more rounds, rounded
    // down or up.
    method ShareRounds(t: nat, k: nat, ghost start: int)
      requires Valid() && AllLocal() && k <= |quorum|
      requires forall name | name in quorum :: quorum[name].rounds == start
      modifies quorum.Values
      ensures forall name | name in quorum :: Quotient(quorum[name].rounds - start, t * k, |quorum|)
    {
      hide Quotient, Fair, RoundsAfter;
      ghost var rounds := RoundsServed();
      ghost var choices := ServeRounds(seq(t, _ => k));
      assert rounds.Keys == quorum.Keys && |rounds| == |quorum|;
      if quorum != map[] {
        ShareOfAll(rounds, choices, t, k, start);
      }
      forall name | name in quorum
        ensures Quotient(quorum[name].rounds - start, t * k, |quorum|)
      {
        assert RoundsServed()[name] == quorum[name].rounds;
      }
    }

    ghost function StatusOfAll(): (r: map<string, Status>)
      reads this, quorum.Values
      ensures r.Keys == quorum.Keys
    {
      map name | name in quorum :: quorum[name].status
    }

    lemma OneMember(name: string)
      requires Valid() && name in quorum
      ensures forall other | other in quorum && other != name :: quorum[other] != quorum[name]
    {
    }

    method Serve(name: string)
      requires Valid() && name in quorum
      modifies quorum[name]
      ensures RoundsServed() == old(RoundsServed())[name := old(RoundsServed()[name]) + 1]
      ensures StatusOfAll() == old(StatusOfAll())[name := Dormant]
    {
      hide Valid;
      OneMember(name);
      quorum[name].rounds := quorum[name].rounds + 1;
      quorum[name].status := Dormant;
    }

    // Whether enough members have delivered.
    method QuorumMet(qct: int) returns (met: bool)
      requires Valid()
      ensures met == (|set name | name in quorum && quorum[name].status == Delivered| >= qct)
    {
      var ct := 0;
      var left := quorum.Keys;
      ghost var seen := {};
      while left != {}
        invariant left <= quorum.Keys
        invariant seen == set name | name in quorum && name !in left && quorum[name].status == Delivered
        invariant ct == |seen|
        decreases |left|
      {
        var name :| name in left;
        left := left - {name};
        if quorum[name].status == Delivered {
          seen := seen + {name};
          ct := ct + 1;
        }
      }
      assert seen == set name | name in quorum && quorum[name].status == Delivered;
      met := ct >= qct;
    }
  }

  lemma NothingChosen(rounds: Rounds)
    ensures LeastServed(rounds, [], 0)
  {
  }

  lemma ChosenAreMembers(index: ClusterIndex, chosen: seq<string>, k: nat)
    requires LeastServed(index.RoundsServed(), chosen, k)
    ensures |chosen| == k && forall i | 0 <= i < |chosen| :: chosen[i] in index.quorum
  {
  }

  function MadeDormant(status: map<string, Status>, names: seq<string>): map<string, Status>
  {
    map name | name in status :: if name in names then Dormant else status[name]
  }

  // Members are named as they are filed.
  lemma NamesAreLocal(ports: seq<string>)
    ensures |Names(ports)| == |ports| && forall i | 0 <= i < |ports| :: Names(ports)[i] == "127.0.0.1:" + ports[i]
  {
    forall i | 0 <= i < |ports|
      ensures Names(ports)[i] == "127.0.0.1:" + ports[i]
    {
      assert "127.0.0.1" + ":" == "127.0.0.1:";
    }
  }

  lemma DormantSnoc(status: map<string, Status>, names: seq<string>, name: string)
    requires name in status
    ensures MadeDormant(status, names + [name]) == MadeDormant(status, names)[name := Dormant]
  {
  }

  lemma NoMention(rounds: Rounds, status: map<string, Status>)
    ensures Served(rounds, []) == rounds && MadeDormant(status, []) == status
  {
  }

  ghost predicate Ordered(vec: seq<ClusterQuorum>)
    reads vec
  {
    forall i, j | 0 <= i < j < |vec| :: vec[i].rounds <= vec[j].rounds
  }

  // std::sort by rounds; nothing is promised about members with equal rounds.
  method Sort(vec: seq<ClusterQuorum>) returns (sorted: seq<ClusterQuorum>)
    ensures Ordered(sorted) && multiset(sorted) == multiset(vec)
  {
    sorted := [];
    var i := 0;
    while i < |vec|
      invariant 0 <= i <= |vec| && Ordered(sorted) && multiset(sorted) == multiset(vec[..i])
    {
      sorted := InsertMember(sorted, vec[i]);
      assert vec[..i + 1] == vec[..i] + [vec[i]];
      i := i + 1;
    }
    assert vec[..i] == vec;
  }

  method InsertMember(sorted: seq<ClusterQuorum>, q: ClusterQuorum) returns (r: seq<ClusterQuorum>)
    requires Ordered(sorted)
    ensures Ordered(r) && multiset(r) == multiset(sorted) + multiset{q}
  {
    hide Ordered;
    var k := |sorted|;
    while k > 0 && q.rounds < sorted[k - 1].rounds
      invariant 0 <= k <= |sorted|
      invariant forall i | k <= i < |sorted| :: q.rounds < sorted[i].rounds
    {
      k := k - 1;
    }
    r := sorted[..k] + [q] + sorted[k..];
    StillOrdered(sorted, q, k);
    OneMore(sorted, q, k);
  }

  lemma OneMore(sorted: seq<ClusterQuorum>, q: ClusterQuorum, k: nat)
    requires k <= |sorted|
    ensures multiset(sorted[..k] + [q] + sorted[k..]) == multiset(sorted) + multiset{q}
  {
    assert sorted == sorted[..k] + sorted[k..];
  }

  lemma StillOrdered(sorted: seq<ClusterQuorum>, q: ClusterQuorum, k: nat)
    requires Ordered(sorted) && k <= |sorted| && (k > 0 ==> sorted[k - 1].rounds <= q.rounds)
    requires forall i | k <= i < |sorted| :: q.rounds < sorted[i].rounds
    ensures Ordered(sorted[..k] + [q] + sorted[k..])
  {
    var r := sorted[..k] + [q] + sorted[k..];
    forall i, j | 0 <= i < j < |r|
      ensures r[i].rounds <= r[j].rounds
    {
      assert i < k ==> r[i] == sorted[i] && sorted[i].rounds <= sorted[k - 1].rounds;
      assert j > k ==> r[j] == sorted[j - 1];
      assert i > k ==> r[i] == sorted[i - 1];
    }
  }

  // A permutation of the members is an enumeration of them as well.
  lemma SortedEnumerates(index: ClusterIndex, vec: seq<ClusterQuorum>, sorted: seq<ClusterQuorum>)
    requires index.Enumerates(vec) && multiset(sorted) == multiset(vec)
    ensures index.Enumerates(sorted)
  {
    assert |multiset(sorted)| == |sorted| && |multiset(vec)| == |vec|;
    forall i | 0 <= i < |sorted|
      ensures index.IsMember(sorted[i])
    {
      assert sorted[i] in multiset(vec);
    }
    forall i, j | 0 <= i < j < |sorted|
      ensures sorted[i] != sorted[j]
    {
      if sorted[i] == sorted[j] {
        TwiceInMultiset(sorted, i, j);
        OnceInMultiset(vec, sorted[i]);
      }
    }
    forall name | name in index.quorum
      ensures index.quorum[name] in sorted
    {
      assert index.quorum[name] in multiset(vec);
    }
  }

  lemma TwiceInMultiset(s: seq<ClusterQuorum>, i: nat, j: nat)
    requires i < j < |s| && s[i] == s[j]
    ensures multiset(s)[s[i]] >= 2
  {
    assert s == s[..i] + [s[i]] + s[i + 1..j] + [s[j]] + s[j + 1..];
  }

  lemma {:induction false} OnceInMultiset(s: seq<ClusterQuorum>, q: ClusterQuorum)
    requires Distinct(s)
    ensures multiset(s)[q] <= 1
    decreases |s|
  {
    if s != [] {
      var n := |s| - 1;
      OnceInMultiset(s[..n], q);
      assert s == s[..n] + [s[n]];
      if s[n] == q {
        assert q !in s[..n];
      }
    }
  }

  lemma PrefixIsLeastServed(index: ClusterIndex, vec: seq<ClusterQuorum>, names: seq<string>)
    requires index.Valid() && index.Enumerates(vec) && Ordered(vec) && |names| <= |vec|
    requires forall k | 0 <= k < |names| :: names[k] == NameOf(vec[k].host, vec[k].port)
    ensures LeastServed(index.RoundsServed(), names, |names|)
  {
    forall i, j | 0 <= i < j < |names|
      ensures names[i] != names[j]
    {
      assert vec[i] != vec[j] && index.IsMember(vec[i]) && index.IsMember(vec[j]);
    }
    forall i | 0 <= i < |names|
      ensures names[i] in index.quorum && index.quorum[names[i]] == vec[i]
    {
      assert index.IsMember(vec[i]);
    }
    forall i, name | 0 <= i < |names| && name in index.quorum && name !in names
      ensures index.quorum[names[i]].rounds <= index.quorum[name].rounds
    {
      var k :| 0 <= k < |vec| && vec[k] == index.quorum[name];
      OutsidePrefix(index, vec, names, k);
    }
  }

  lemma PrefixBelongs(index: ClusterIndex, vec: seq<ClusterQuorum>, names: seq<string>, ports: seq<string>)
    requires index.Valid() && index.Enumerates(vec) && |names| == |ports| <= |vec|
    requires forall k | 0 <= k < |names| :: names[k] == NameOf(vec[k].host, vec[k].port) && ports[k] == vec[k].port
    ensures index.Belong(ports, names) && (index.AllLocal() ==> names == Names(ports))
  {
    forall k | 0 <= k < |names|
      ensures names[k] in index.quorum && index.quorum[names[k]] == vec[k]
    {
      assert index.IsMember(vec[k]);
    }
  }

  lemma OutsidePrefix(index: ClusterIndex, vec: seq<ClusterQuorum>, names: seq<string>, k: nat)
    requires k < |vec| && |names| <= |vec| && NameOf(vec[k].host, vec[k].port) !in names
    requires forall k | 0 <= k < |names| :: names[k] == NameOf(vec[k].host, vec[k].port)
    ensures |names| <= k
  {
  }
}
