/**
  The social network as a value: the registry's names in insertion order and,
  for each registered name, the names of that person's friends in the order
  they were added.  Every operation of the network is a function here; the
  classes in module Network are proved to follow these functions.
*/
module Adjacency {
  import opened Wrappers

  datatype Network = Network(order: seq<string>, friends: map<string, seq<string>>)

  /** The network a fresh SocialNetwork holds. */
  const Empty: Network := Network([], map[])

  predicate NoDuplicates<T(==)>(s: seq<T>) {
    forall i, j :: 0 <= i < j < |s| ==> s[i] != s[j]
  }

  /** `f` is in the friend list of the registered person `n`. */
  ghost predicate Linked(net: Network, n: string, f: string) {
    n in net.friends && f in net.friends[n]
  }

  /** Every friend is registered, and friendship goes both ways. */
  ghost predicate Symmetric(net: Network) {
    forall n, f :: Linked(net, n, f) ==> f in net.friends && Linked(net, f, n)
  }

  /**
    What every sequence of operations keeps: each name is registered once and
    appears once in the order, no friend list holds a name twice, and
    friendship is symmetric.
  */
  ghost predicate Invariant(net: Network) {
    && NoDuplicates(net.order)
    && (forall k :: 0 <= k < |net.order| ==> net.order[k] in net.friends)
    && (forall n :: n in net.friends ==> n in net.order)
    && (forall n :: n in net.friends ==> NoDuplicates(net.friends[n]))
    && Symmetric(net)
  }

  /** A friend list after `add_friend(x)`: x is appended unless it is already there. */
  function AddIfAbsent<T(==)>(s: seq<T>, x: T): (r: seq<T>)
    ensures x in r
    ensures |s| <= |r| && r[..|s|] == s
    ensures |r| == if x in s then |s| else |s| + 1
    ensures x !in s ==> r[|s|] == x
    ensures NoDuplicates(s) ==> NoDuplicates(r)
  {
    if x in s then s else s + [x]
  }

  lemma AddIfAbsentIdempotent<T>(s: seq<T>, x: T)
    ensures AddIfAbsent(AddIfAbsent(s, x), x) == AddIfAbsent(s, x)
  {
  }

  /** A list without duplicates holds each of its elements exactly once. */
  lemma {:induction false} NoDuplicatesOnce<T>(s: seq<T>, x: T)
    requires NoDuplicates(s) && x in s
    ensures multiset(s)[x] == 1
  {
    assert s == [s[0]] + s[1..];
    if s[0] == x {
      assert x !in s[1..] by {
        forall j | 0 <= j < |s[1..]| ensures s[1..][j] != x {
          assert s[1..][j] == s[j + 1];
        }
      }
    } else {
      assert NoDuplicates(s[1..]) by {
        forall i, j | 0 <= i < j < |s[1..]| ensures s[1..][i] != s[1..][j] {
          assert s[1..][i] == s[i + 1] && s[1..][j] == s[j + 1];
        }
      }
      NoDuplicatesOnce(s[1..], x);
    }
  }

  // ---------------------------------------------------------------- add_person

  function AddPerson(net: Network, name: string): (r: Network)
    ensures r.friends.Keys == net.friends.Keys + {name}
    ensures forall n :: n in net.friends ==> r.friends[n] == net.friends[n]
    ensures name in net.friends ==> r == net
    ensures name !in net.friends ==> r.order == net.order + [name] && r.friends[name] == []
  {
    if name in net.friends then net else Network(net.order + [name], net.friends[name := []])
  }

  /** The diagnostic for a name that is already registered; it quotes the name. */
  function DuplicateMessage(name: string): (m: string)
    ensures 8 + |name| <= |m| && m[..8] == "Person '" && m[8..8 + |name|] == name
    ensures m[8 + |name|..] == "' already exists in the network."
  {
    var m := "Person '" + name + "' already exists in the network.";
    assert m[8..8 + |name|] == name;
    assert m[8 + |name|..] == "' already exists in the network.";
    m
  }

  /** Adding the same person twice is the same as adding them once. */
  lemma AddPersonIdempotent(net: Network, name: string)
    ensures AddPerson(AddPerson(net, name), name) == AddPerson(net, name)
  {
  }

  lemma AddPersonPreservesInvariant(net: Network, name: string)
    requires Invariant(net)
    ensures Invariant(AddPerson(net, name))
  {
    var r := AddPerson(net, name);
    if name !in net.friends {
      assert name !in net.order;
      assert NoDuplicates(r.order) by {
        forall i, j | 0 <= i < j < |r.order| ensures r.order[i] != r.order[j] {
          if j == |net.order| {
            assert r.order[i] == net.order[i];
          }
        }
      }
      forall n, f | Linked(r, n, f) ensures f in r.friends && Linked(r, f, n) {
        assert n != name && Linked(net, n, f);
      }
    }
  }

  // ------------------------------------------------------------ add_friendship

  /**
    The message when a friendship names someone unregistered: the missing
    first name, " and " only when both are missing, then the missing second name.
  */
  function MissingMessage(first: string, second: string, firstMissing: bool, secondMissing: bool): (m: string)
    requires firstMissing || secondMissing
    ensures firstMissing && !secondMissing ==>
      m == "Friendship not created. " + first + " doesn't exist!"
    ensures !firstMissing && secondMissing ==>
      m == "Friendship not created. " + second + " doesn't exist!"
    ensures firstMissing && secondMissing ==>
      m == "Friendship not created. " + first + " and " + second + " doesn't exist!"
  {
    "Friendship not created. "
      + (if firstMissing then first else "")
      + (if firstMissing && secondMissing then " and " else "")
      + (if secondMissing then second else "")
      + " doesn't exist!"
  }

  /** The diagnostic `add_friendship` reports, if any. */
  function FriendshipDiagnostic(net: Network, first: string, second: string): (d: Option<string>)
    ensures d.None? <==> first in net.friends && second in net.friends
    ensures d.Some? ==>
      d.value == MissingMessage(first, second, first !in net.friends, second !in net.friends)
  {
    if first !in net.friends || second !in net.friends then
      Some(MissingMessage(first, second, first !in net.friends, second !in net.friends))
    else
      None
  }

  /** Each of the two people gets the other as a friend, first then second. */
  function AddFriendship(net: Network, first: string, second: string): (r: Network)
    ensures r.order == net.order && r.friends.Keys == net.friends.Keys
    ensures first !in net.friends || second !in net.friends ==> r == net
  {
    if first !in net.friends || second !in net.friends then
      net
    else
      var afterFirst := net.friends[first := AddIfAbsent(net.friends[first], second)];
      Network(net.order, afterFirst[second := AddIfAbsent(afterFirst[second], first)])
  }

  /**
    On success each person is in the other's list, existing friends keep their
    place, the new one goes last, and nobody else's list changes.
  */
  lemma AddFriendshipEffect(net: Network, first: string, second: string)
    requires first in net.friends && second in net.friends
    ensures var r := AddFriendship(net, first, second);
      && second in r.friends[first] && first in r.friends[second]
      && (first != second ==> r.friends[first] == AddIfAbsent(net.friends[first], second))
      && (first != second ==> r.friends[second] == AddIfAbsent(net.friends[second], first))
      && (first == second ==> r.friends[first] == AddIfAbsent(net.friends[first], first))
      && (forall n :: n in net.friends && n != first && n != second ==> r.friends[n] == net.friends[n])
  {
  }

  /** Repeating a friendship changes nothing. */
  lemma AddFriendshipIdempotent(net: Network, first: string, second: string)
    ensures var once := AddFriendship(net, first, second);
      AddFriendship(once, first, second) == once
  {
    var once := AddFriendship(net, first, second);
    if first in net.friends && second in net.friends {
      AddFriendshipEffect(net, first, second);
      var afterFirst := once.friends[first := AddIfAbsent(once.friends[first], second)];
      assert afterFirst == once.friends;
      assert AddIfAbsent(afterFirst[second], first) == afterFirst[second];
    }
  }

  /** A friendship of a person with themself lists them exactly once, at the end if new. */
  lemma AddFriendshipSelf(net: Network, x: string)
    requires Invariant(net) && x in net.friends
    ensures var r := AddFriendship(net, x, x);
      && r.friends[x] == AddIfAbsent(net.friends[x], x)
      && multiset(r.friends[x])[x] == 1
  {
    var r := AddFriendship(net, x, x);
    AddFriendshipEffect(net, x, x);
    NoDuplicatesOnce(r.friends[x], x);
  }

  /** Friendship stays symmetric: both people gain each other, nobody else changes. */
  lemma AddFriendshipKeepsSymmetric(net: Network, first: string, second: string)
    requires Symmetric(net) && first in net.friends && second in net.friends
    ensures Symmetric(AddFriendship(net, first, second))
  {
    var r := AddFriendship(net, first, second);
    AddFriendshipEffect(net, first, second);
    forall n, f | Linked(r, n, f) ensures f in r.friends && Linked(r, f, n) {
      if Linked(net, n, f) {
        assert Linked(net, f, n);
      }
    }
  }

  lemma AddFriendshipPreservesInvariant(net: Network, first: string, second: string)
    requires Invariant(net)
    ensures Invariant(AddFriendship(net, first, second))
  {
    var r := AddFriendship(net, first, second);
    if first in net.friends && second in net.friends {
      assert forall n :: n in r.friends ==> NoDuplicates(r.friends[n]) by {
        AddFriendshipEffect(net, first, second);
      }
      AddFriendshipKeepsSymmetric(net, first, second);
    }
  }

  // ----------------------------------------------------------- call sequences

  /** One call a client makes on the network. */
  datatype Call = AddPersonCall(name: string) | AddFriendshipCall(first: string, second: string)

  function Apply(net: Network, call: Call): Network {
    match call
    case AddPersonCall(name) => AddPerson(net, name)
    case AddFriendshipCall(first, second) => AddFriendship(net, first, second)
  }

  /** The network after a client's calls, made one after another. */
  function Run(net: Network, calls: seq<Call>): Network
    decreases |calls|
  {
    if calls == [] then net else Run(Apply(net, calls[0]), calls[1..])
  }

  /** Every network reachable through the operations satisfies the invariant. */
  lemma {:induction false} RunPreservesInvariant(net: Network, calls: seq<Call>)
    requires Invariant(net)
    ensures Invariant(Run(net, calls))
    decreases |calls|
  {
    if calls != [] {
      match calls[0] {
        case AddPersonCall(name) => AddPersonPreservesInvariant(net, name);
        case AddFriendshipCall(first, second) => AddFriendshipPreservesInvariant(net, first, second);
      }
      RunPreservesInvariant(Apply(net, calls[0]), calls[1..]);
    }
  }

  // -------------------------------------------------------------- print_network

  /** `sep.join(xs)`. */
  function Join(sep: string, xs: seq<string>): (r: string)
    ensures xs == [] ==> r == ""
    ensures |xs| == 1 ==> r == xs[0]
    ensures xs != [] ==> |xs[0]| <= |r| && r[..|xs[0]|] == xs[0]
  {
    if |xs| == 0 then "" else if |xs| == 1 then xs[0] else xs[0] + sep + Join(sep, xs[1..])
  }

  lemma {:induction false} JoinSnoc(sep: string, xs: seq<string>, x: string)
    requires xs != []
    ensures Join(sep, xs + [x]) == Join(sep, xs) + sep + x
  {
    if |xs| == 1 {
      assert (xs + [x])[1..] == [x];
    } else {
      assert (xs + [x])[1..] == xs[1..] + [x];
      JoinSnoc(sep, xs[1..], x);
    }
  }

  /** One line of the report: the name, then its friends joined by ", " or "No friends". */
  function ReportLine(name: string, friendNames: seq<string>): (line: string)
    ensures |name| + 18 <= |line| && line[..|name| + 18] == name + " is friends with: "
    ensures friendNames == [] ==> line == name + " is friends with: No friends"
    ensures friendNames != [] ==> line == name + " is friends with: " + Join(", ", friendNames)
  {
    var head := name + " is friends with: ";
    var line := head + (if friendNames == [] then "No friends" else Join(", ", friendNames));
    assert line[..|head|] == head;
    line
  }

  /** The whole report: one line per registered name, in insertion order. */
  function Report(net: Network): (lines: seq<string>)
    requires forall n :: n in net.order ==> n in net.friends
    ensures |lines| == |net.order|
    ensures forall k :: 0 <= k < |lines| ==>
      |net.order[k]| + 18 <= |lines[k]| && lines[k][..|net.order[k]| + 18] == net.order[k] + " is friends with: "
  {
    seq(|net.order|, k requires 0 <= k < |net.order| => ReportLine(net.order[k], net.friends[net.order[k]]))
  }

  /**
    Befriending someone new extends that person's report line by ", " and the
    new name (or replaces "No friends" by it); a known friend leaves it as it was.
  */
  lemma ReportLineAfterAddFriend(name: string, friendNames: seq<string>, f: string)
    ensures var line := ReportLine(name, AddIfAbsent(friendNames, f));
      && (f in friendNames ==> line == ReportLine(name, friendNames))
      && (f !in friendNames && friendNames == [] ==> line == name + " is friends with: " + f)
      && (f !in friendNames && friendNames != [] ==> line == ReportLine(name, friendNames) + ", " + f)
  {
    if f !in friendNames && friendNames != [] {
      JoinSnoc(", ", friendNames, f);
    }
  }

  /** Every registered person gets exactly one line of the report, and it is theirs. */
  lemma ReportListsEachPersonOnce(net: Network, name: string)
    requires Invariant(net) && name in net.friends
    ensures exists k :: (0 <= k < |net.order| && net.order[k] == name
      && Report(net)[k] == ReportLine(name, net.friends[name])
      && (forall j :: 0 <= j < |net.order| && j != k ==> net.order[j] != name))
  {
    var k :| 0 <= k < |net.order| && net.order[k] == name;
    assert Report(net)[k] == ReportLine(name, net.friends[name]);
  }
}
