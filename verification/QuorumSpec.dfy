// Choosing the members that have been served least (core/src/cluster/cluster_index.cc).
module QuorumSpec {
  import opened Common

  // Rounds served, by the name of the member.
  type Rounds = map<string, int>

  // What quorumSelect may return: least served first, in any order among equals.
  predicate LeastServed(rounds: Rounds, chosen: seq<string>, k: nat)
  {
    && |chosen| == k && Distinct(chosen)
    && (forall i | 0 <= i < |chosen| :: chosen[i] in rounds)
    && (forall i, j | 0 <= i < j < |chosen| :: rounds[chosen[i]] <= rounds[chosen[j]])
    && (forall i, name | 0 <= i < |chosen| && name in rounds && name !in chosen :: rounds[chosen[i]] <= rounds[name])
  }

  // quorumUpdate: one more round for each time a name is mentioned.
  function Served(rounds: Rounds, chosen: seq<string>): (r: Rounds)
    ensures r.Keys == rounds.Keys
  {
    map name | name in rounds :: rounds[name] + multiset(chosen)[name]
  }

  lemma ServedSnoc(rounds: Rounds, chosen: seq<string>, name: string)
    requires name in rounds
    ensures Served(rounds, chosen + [name]) == Served(rounds, chosen)[name := Served(rounds, chosen)[name] + 1]
  {
  }

  lemma {:induction false} MentionedOnce(chosen: seq<string>, name: string)
    requires Distinct(chosen)
    ensures multiset(chosen)[name] == if name in chosen then 1 else 0
    decreases |chosen|
  {
    if chosen != [] {
      var n := |chosen| - 1;
      MentionedOnce(chosen[..n], name);
      assert chosen == chosen[..n] + [chosen[n]];
    }
  }

  predicate SpreadAtMost(rounds: Rounds, d: int)
  {
    forall a, b | a in rounds && b in rounds :: rounds[a] - rounds[b] <= d
  }

  lemma SpreadKept(rounds: Rounds, chosen: seq<string>, k: nat, d: int)
    requires d >= 1 && SpreadAtMost(rounds, d) && LeastServed(rounds, chosen, k)
    ensures SpreadAtMost(Served(rounds, chosen), d)
  {
    forall a, b | a in rounds && b in rounds
      ensures Served(rounds, chosen)[a] - Served(rounds, chosen)[b] <= d
    {
      MentionedOnce(chosen, a);
      MentionedOnce(chosen, b);
      if a in chosen && b !in chosen {
        var i :| 0 <= i < |chosen| && chosen[i] == a;
        assert rounds[chosen[i]] <= rounds[b];
      }
    }
  }

  // ---------------------------------------------------------------- many rounds

  // A run: each choice is a least served one at its time; the number chosen may differ.
  predicate Fair(rounds: Rounds, choices: seq<seq<string>>)
    decreases |choices|
  {
    choices == []
    || (Fair(rounds, choices[..|choices| - 1])
        && LeastServed(RoundsAfter(rounds, choices[..|choices| - 1]), choices[|choices| - 1], |choices[|choices| - 1]|))
  }

  function RoundsAfter(rounds: Rounds, choices: seq<seq<string>>): (r: Rounds)
    ensures r.Keys == rounds.Keys
    decreases |choices|
  {
    if choices == [] then rounds
    else Served(RoundsAfter(rounds, choices[..|choices| - 1]), choices[|choices| - 1])
  }

  lemma FairSnoc(rounds: Rounds, choices: seq<seq<string>>, chosen: seq<string>)
    requires Fair(rounds, choices) && LeastServed(RoundsAfter(rounds, choices), chosen, |chosen|)
    ensures Fair(rounds, choices + [chosen])
    ensures RoundsAfter(rounds, choices + [chosen]) == Served(RoundsAfter(rounds, choices), chosen)
  {
    hide LeastServed, Served;
    assert (choices + [chosen])[..|choices|] == choices;
  }

  // No run raises the spread above its initial value, or above one.
  lemma {:induction false} SpreadNeverGrows(rounds: Rounds, choices: seq<seq<string>>, d: int)
    requires d >= 1 && SpreadAtMost(rounds, d) && Fair(rounds, choices)
    ensures SpreadAtMost(RoundsAfter(rounds, choices), d)
    decreases |choices|
  {
    if choices != [] {
      var front, last := choices[..|choices| - 1], choices[|choices| - 1];
      SpreadNeverGrows(rounds, front, d);
      SpreadKept(RoundsAfter(rounds, front), last, |last|, d);
    }
  }

  // ---------------------------------------------------------------- conservation

  function Total(rounds: Rounds, names: seq<string>): int
    requires forall i | 0 <= i < |names| :: names[i] in rounds
  {
    if names == [] then 0 else rounds[names[0]] + Total(rounds, names[1..])
  }

  // The members, in some order.
  predicate Lists(names: seq<string>, rounds: Rounds)
  {
    && Distinct(names) && (forall i | 0 <= i < |names| :: names[i] in rounds)
    && forall name | name in rounds :: name in names
  }

  function Hits(names: seq<string>, chosen: set<string>): nat
  {
    if names == [] then 0 else (if names[0] in chosen then 1 else 0) + Hits(names[1..], chosen)
  }

  lemma {:induction false} HitsAll(names: seq<string>, chosen: set<string>)
    requires Distinct(names) && forall c | c in chosen :: c in names
    ensures Hits(names, chosen) == |chosen|
    decreases |names|
  {
    if names == [] {
      assert chosen == {};
    } else {
      var rest := chosen - {names[0]};
      HitsAll(names[1..], rest);
      HitsWithout(names[1..], chosen, names[0]);
    }
  }

  lemma {:induction false} HitsWithout(names: seq<string>, chosen: set<string>, name: string)
    requires name !in names
    ensures Hits(names, chosen - {name}) == Hits(names, chosen)
    decreases |names|
  {
    if names != [] {
      HitsWithout(names[1..], chosen, name);
    }
  }

  lemma {:induction false} ServedTotal(rounds: Rounds, names: seq<string>, chosen: seq<string>)
    requires Distinct(chosen)
    requires forall i | 0 <= i < |names| :: names[i] in rounds
    ensures Total(Served(rounds, chosen), names) == Total(rounds, names) + Hits(names, Elements(chosen))
    decreases |names|
  {
    if names != [] {
      MentionedOnce(chosen, names[0]);
      ServedTotal(rounds, names[1..], chosen);
    }
  }

  function Elements(s: seq<string>): set<string>
  {
    set x | x in s
  }

  lemma {:induction false} ElementsCount(s: seq<string>)
    requires Distinct(s)
    ensures |Elements(s)| == |s|
    decreases |s|
  {
    if s != [] {
      var n := |s| - 1;
      ElementsCount(s[..n]);
      assert s == s[..n] + [s[n]];
      assert Elements(s) == Elements(s[..n]) + {s[n]};
    }
  }

  function Sizes(choices: seq<seq<string>>): nat
  {
    if choices == [] then 0 else Sizes(choices[..|choices| - 1]) + |choices[|choices| - 1]|
  }

  // Every place given out is counted at one member.
  lemma {:induction false} PlacesAreCounted(rounds: Rounds, choices: seq<seq<string>>, names: seq<string>)
    requires Lists(names, rounds) && Fair(rounds, choices)
    ensures Total(RoundsAfter(rounds, choices), names) == Total(rounds, names) + Sizes(choices)
    decreases |choices|
  {
    if choices != [] {
      var front, last := choices[..|choices| - 1], choices[|choices| - 1];
      PlacesAreCounted(rounds, front, names);
      var before := RoundsAfter(rounds, front);
      ServedTotal(before, names, last);
      ElementsCount(last);
      HitsAll(names, Elements(last));
    }
  }

  // ---------------------------------------------------------------- fairness

  lemma Times(n: int, x: int)
    ensures n * x == x + (n - 1) * x
  {
  }

  lemma {:induction false} TotalBetween(rounds: Rounds, names: seq<string>, low: int, high: int)
    requires forall i | 0 <= i < |names| :: names[i] in rounds && low <= rounds[names[i]] <= high
    ensures |names| * low <= Total(rounds, names) <= |names| * high
    decreases |names|
  {
    if names != [] {
      TotalBetween(rounds, names[1..], low, high);
      Times(|names|, low);
      Times(|names|, high);
    }
  }

  lemma {:induction false} TotalWithOne(rounds: Rounds, names: seq<string>, low: int, high: int, k: nat)
    requires forall i | 0 <= i < |names| :: names[i] in rounds && low <= rounds[names[i]] <= high
    requires k < |names|
    ensures (|names| - 1) * low + rounds[names[k]] <= Total(rounds, names) <= (|names| - 1) * high + rounds[names[k]]
    decreases |names|
  {
    if k == 0 {
      TotalBetween(rounds, names[1..], low, high);
    } else {
      TotalWithOne(rounds, names[1..], low, high, k - 1);
      Times(|names| - 1, low);
      Times(|names| - 1, high);
    }
  }

  // x is the quotient rounded down or up.
  predicate Quotient(x: int, total: int, n: nat)
    requires n > 0
  {
    x == total / n || (total % n != 0 && x == total / n + 1)
  }

  // Counts within one of each other divide their total as evenly as whole numbers can.
  lemma EvenCounts(rounds: Rounds, names: seq<string>, k: nat)
    requires Lists(names, rounds) && SpreadAtMost(rounds, 1) && k < |names|
    ensures Quotient(rounds[names[k]], Total(rounds, names), |names|)
  {
    hide Total, Quotient;
    var x := rounds[names[k]];
    if exists i | 0 <= i < |names| :: rounds[names[i]] == x + 1 {
      var i :| 0 <= i < |names| && rounds[names[i]] == x + 1;
      assert forall j | 0 <= j < |names| :: rounds[names[i]] - rounds[names[j]] <= 1;
      SomeAbove(rounds, names, k, x);
    } else if exists i | 0 <= i < |names| :: rounds[names[i]] == x - 1 {
      var i :| 0 <= i < |names| && rounds[names[i]] == x - 1;
      SomeBelow(rounds, names, k, i, x);
    } else {
      SomeAbove(rounds, names, k, x);
    }
  }

  lemma SomeAbove(rounds: Rounds, names: seq<string>, k: nat, x: int)
    requires forall i | 0 <= i < |names| :: names[i] in rounds && x <= rounds[names[i]] <= x + 1
    requires k < |names| && rounds[names[k]] == x
    ensures Quotient(x, Total(rounds, names), |names|)
  {
    hide Total;
    TotalWithOne(rounds, names, x, x + 1, k);
    Products(|names|, x);
    Division(Total(rounds, names), |names|, x);
  }

  lemma SomeBelow(rounds: Rounds, names: seq<string>, k: nat, i: nat, x: int)
    requires forall i | 0 <= i < |names| :: names[i] in rounds && x - 1 <= rounds[names[i]] <= x
    requires k < |names| && rounds[names[k]] == x && i < |names| && rounds[names[i]] == x - 1
    ensures Quotient(x, Total(rounds, names), |names|)
  {
    hide Total;
    TotalWithOne(rounds, names, x - 1, x, k);
    TotalWithOne(rounds, names, x - 1, x, i);
    Products(|names|, x - 1);
    Division(Total(rounds, names), |names|, x - 1);
  }

  lemma Products(n: nat, x: int)
    ensures (n - 1) * x + x == n * x && (n - 1) * (x + 1) == n * x + n - x - 1
  {
  }

  // From equal counts, after t rounds of k places over n members, each member has gained t * k / n
  // rounds, rounded down or up.
  lemma {:induction false} EveryMemberGetsItsShare(
    rounds: Rounds, choices: seq<seq<string>>, names: seq<string>, k: nat, start: int, m: nat)
    requires Lists(names, rounds) && Fair(rounds, choices) && m < |names|
    requires forall name | name in rounds :: rounds[name] == start
    requires forall i | 0 <= i < |choices| :: |choices[i]| == k
    ensures Quotient(RoundsAfter(rounds, choices)[names[m]] - start, |choices| * k, |names|)
  {
    hide Total, Fair, RoundsAfter, Sizes;
    var after, n := RoundsAfter(rounds, choices), |names|;
    SpreadNeverGrows(rounds, choices, 1);
    EvenCounts(after, names, m);
    PlacesAreCounted(rounds, choices, names);
    TotalBetween(rounds, names, start, start);
    EqualSizes(choices, k);
    assert Total(after, names) == |choices| * k + n * start;
    Shifted(|choices| * k, n, start);
  }

  // The same for every member, in whatever order they are listed.
  lemma ShareOfAll(rounds: Rounds, choices: seq<seq<string>>, t: nat, k: nat, start: int)
    requires Fair(rounds, choices) && |choices| == t && |rounds| > 0
    requires forall name | name in rounds :: rounds[name] == start
    requires forall i | 0 <= i < t :: |choices[i]| == k
    ensures forall name | name in rounds :: Quotient(RoundsAfter(rounds, choices)[name] - start, t * k, |rounds|)
  {
    hide Fair, RoundsAfter, Quotient;
    var names := Listing(rounds.Keys);
    forall name | name in rounds
      ensures Quotient(RoundsAfter(rounds, choices)[name] - start, t * k, |rounds|)
    {
      var m :| 0 <= m < |names| && names[m] == name;
      EveryMemberGetsItsShare(rounds, choices, names, k, start, m);
    }
  }

  lemma {:induction false} Listing(members: set<string>) returns (names: seq<string>)
    ensures Distinct(names) && |names| == |members| && forall name :: name in members <==> name in names
    decreases |members|
  {
    if members == {} {
      names := [];
    } else {
      var name :| name in members;
      names := Listing(members - {name});
      names := names + [name];
    }
  }

  lemma Shifted(total: int, n: nat, start: int)
    requires n > 0
    ensures (total + n * start) / n == total / n + start && (total + n * start) % n == total % n
  {
    assert total == n * (total / n) + total % n;
    assert n * (total / n + start) == n * (total / n) + n * start;
    Division(total + n * start, n, total / n + start);
  }

  lemma {:induction false} EqualSizes(choices: seq<seq<string>>, k: nat)
    requires forall i | 0 <= i < |choices| :: |choices[i]| == k
    ensures Sizes(choices) == |choices| * k
    decreases |choices|
  {
    if choices != [] {
      EqualSizes(choices[..|choices| - 1], k);
      assert |choices| * k == (|choices| - 1) * k + k;
    }
  }
}
