/**
  The example session at the bottom of social_network.py: six people are
  registered, nine friendships are requested (one of them names somebody who
  was never registered) and the network is reported.  The session is stated
  for any six different names plus one that is never registered, and then for
  the names the example itself uses.
*/
module Driver {
  import opened Adjacency

  /** Six registered names, all different, and a seventh that is none of them. */
  predicate Cast(alex: string, jordan: string, morgan: string, taylor: string,
                 casey: string, riley: string, johnny: string)
  {
    && alex != jordan && alex != morgan && alex != taylor && alex != casey && alex != riley
    && jordan != morgan && jordan != taylor && jordan != casey && jordan != riley
    && morgan != taylor && morgan != casey && morgan != riley
    && taylor != casey && taylor != riley && casey != riley
    && johnny != alex && johnny != jordan && johnny != morgan
    && johnny != taylor && johnny != casey && johnny != riley
  }

  /** The six registrations, one after another, on an empty network. */
  function Registered(alex: string, jordan: string, morgan: string, taylor: string,
                      casey: string, riley: string): Network
  {
    AddPerson(AddPerson(AddPerson(AddPerson(AddPerson(AddPerson(Empty,
      alex), jordan), morgan), taylor), casey), riley)
  }

  /** The nine friendship requests, one after another. */
  function Befriended(net: Network, alex: string, jordan: string, morgan: string,
                      taylor: string, casey: string, riley: string, johnny: string): Network
  {
    AddFriendship(AddFriendship(AddFriendship(AddFriendship(AddFriendship(
      AddFriendship(AddFriendship(AddFriendship(AddFriendship(net,
        alex, jordan), alex, morgan), jordan, taylor), jordan, johnny),
        morgan, casey), taylor, riley), casey, riley), morgan, riley), alex, taylor)
  }

  // Small facts about friend lists of names known to differ.
  lemma AddToSingle<T>(a: T, x: T)
    requires x != a
    ensures AddIfAbsent([a], x) == [a, x]
  {
  }

  lemma AddToPair<T>(a: T, b: T, x: T)
    requires x != a && x != b
    ensures AddIfAbsent([a, b], x) == [a, b, x]
  {
  }

  /** The two people of a successful friendship each gain the other. */
  lemma Linking(net: Network, first: string, second: string)
    requires first in net.friends && second in net.friends && first != second
    ensures var r := AddFriendship(net, first, second);
      && r.friends[first] == AddIfAbsent(net.friends[first], second)
      && r.friends[second] == AddIfAbsent(net.friends[second], first)
  {
    AddFriendshipEffect(net, first, second);
  }

  /** A friendship leaves a third person's list as it was. */
  lemma Bystander(net: Network, first: string, second: string, n: string)
    requires n in net.friends && n != first && n != second
    ensures AddFriendship(net, first, second).friends[n] == net.friends[n]
  {
    if first in net.friends && second in net.friends {
      AddFriendshipEffect(net, first, second);
    }
  }

  /** A new name goes last and, like everyone before it, has no friends. */
  lemma Newcomer(net: Network, name: string)
    requires name !in net.friends
    requires forall n :: n in net.friends ==> net.friends[n] == []
    ensures var r := AddPerson(net, name);
      && r.order == net.order + [name]
      && r.friends.Keys == net.friends.Keys + {name}
      && forall n :: n in r.friends ==> r.friends[n] == []
  {
  }

  /** Three new, different names go last in turn, and nobody has friends yet. */
  lemma Newcomers(net: Network, a: string, b: string, c: string)
    requires a !in net.friends && b !in net.friends && c !in net.friends
    requires a != b && a != c && b != c
    requires forall n :: n in net.friends ==> net.friends[n] == []
    ensures var r := AddPerson(AddPerson(AddPerson(net, a), b), c);
      && r.order == net.order + [a, b, c]
      && r.friends.Keys == net.friends.Keys + {a, b, c}
      && forall n :: n in r.friends ==> r.friends[n] == []
  {
    Newcomer(net, a);
    Newcomer(AddPerson(net, a), b);
    Newcomer(AddPerson(AddPerson(net, a), b), c);
  }

  /** Registering six different names lists them in order, each with no friends. */
  lemma RegisteredPeople(alex: string, jordan: string, morgan: string, taylor: string,
                         casey: string, riley: string, johnny: string)
    requires Cast(alex, jordan, morgan, taylor, casey, riley, johnny)
    ensures var t := Registered(alex, jordan, morgan, taylor, casey, riley);
      && t.order == [alex, jordan, morgan, taylor, casey, riley]
      && t.friends.Keys == {alex, jordan, morgan, taylor, casey, riley}
      && forall n :: n in t.friends ==> t.friends[n] == []
  {
    var half := AddPerson(AddPerson(AddPerson(Empty, alex), jordan), morgan);
    Newcomers(Empty, alex, jordan, morgan);
    assert half.order == [alex, jordan, morgan];
    assert half.friends.Keys == {alex, jordan, morgan};
    Newcomers(half, taylor, casey, riley);
    assert [alex, jordan, morgan] + [taylor, casey, riley]
        == [alex, jordan, morgan, taylor, casey, riley];
    assert {alex, jordan, morgan} + {taylor, casey, riley}
        == {alex, jordan, morgan, taylor, casey, riley};
  }

  /** The first four requests: Alex gains Jordan and Morgan; Riley is untouched. */
  lemma EarlyRequests(t0: Network, alex: string, jordan: string, morgan: string,
                      taylor: string, riley: string, johnny: string)
    requires alex != jordan && alex != morgan && alex != taylor && jordan != morgan
    requires riley != alex && riley != jordan && riley != morgan && riley != taylor
    requires alex in t0.friends && jordan in t0.friends && morgan in t0.friends
    requires taylor in t0.friends && riley in t0.friends && johnny !in t0.friends
    requires t0.friends[alex] == [] && t0.friends[riley] == []
    ensures var t := AddFriendship(AddFriendship(AddFriendship(AddFriendship(t0,
        alex, jordan), alex, morgan), jordan, taylor), jordan, johnny);
      && t.order == t0.order
      && t.friends.Keys == t0.friends.Keys
      && t.friends[alex] == [jordan, morgan]
      && t.friends[riley] == []
  {
    var t1 := AddFriendship(t0, alex, jordan);
    assert t1.friends[alex] == [jordan] && t1.friends[riley] == [] by {
      Linking(t0, alex, jordan);
      Bystander(t0, alex, jordan, riley);
    }
    var t2 := AddFriendship(t1, alex, morgan);
    assert t2.friends[alex] == [jordan, morgan] && t2.friends[riley] == [] by {
      Linking(t1, alex, morgan);
      AddToSingle(jordan, morgan);
      Bystander(t1, alex, morgan, riley);
    }
    var t3 := AddFriendship(t2, jordan, taylor);
    Bystander(t2, jordan, taylor, alex);
    Bystander(t2, jordan, taylor, riley);
    // Johnny was never registered: the request changes nothing.
    assert johnny !in t3.friends;
  }

  /** The last five requests: Riley gains Taylor, Casey and Morgan; Alex gains Taylor. */
  lemma LateRequests(t4: Network, alex: string, jordan: string, morgan: string,
                     taylor: string, casey: string, riley: string, johnny: string)
    requires Cast(alex, jordan, morgan, taylor, casey, riley, johnny)
    requires t4.friends.Keys == {alex, jordan, morgan, taylor, casey, riley}
    requires t4.friends[alex] == [jordan, morgan] && t4.friends[riley] == []
    ensures var t := AddFriendship(AddFriendship(AddFriendship(AddFriendship(AddFriendship(t4,
        morgan, casey), taylor, riley), casey, riley), morgan, riley), alex, taylor);
      && t.order == t4.order
      && t.friends.Keys == t4.friends.Keys
      && t.friends[alex] == [jordan, morgan, taylor]
      && t.friends[riley] == [taylor, casey, morgan]
  {
    var t5 := AddFriendship(t4, morgan, casey);
    assert t5.friends[alex] == [jordan, morgan] && t5.friends[riley] == [] by {
      Bystander(t4, morgan, casey, alex);
      Bystander(t4, morgan, casey, riley);
    }
    var t6 := AddFriendship(t5, taylor, riley);
    assert t6.friends[alex] == [jordan, morgan] && t6.friends[riley] == [taylor] by {
      Linking(t5, taylor, riley);
      Bystander(t5, taylor, riley, alex);
    }
    var t7 := AddFriendship(t6, casey, riley);
    assert t7.friends[alex] == [jordan, morgan] && t7.friends[riley] == [taylor, casey] by {
      Linking(t6, casey, riley);
      AddToSingle(taylor, casey);
      Bystander(t6, casey, riley, alex);
    }
    var t8 := AddFriendship(t7, morgan, riley);
    assert t8.friends[alex] == [jordan, morgan] && t8.friends[riley] == [taylor, casey, morgan] by {
      Linking(t7, morgan, riley);
      AddToPair(taylor, casey, morgan);
      Bystander(t7, morgan, riley, alex);
    }
    Linking(t8, alex, taylor);
    AddToPair(jordan, morgan, taylor);
    Bystander(t8, alex, taylor, riley);
  }

  /** The nine friendship requests of the session, from six friendless people. */
  lemma BefriendedPeople(t0: Network, alex: string, jordan: string, morgan: string,
                         taylor: string, casey: string, riley: string, johnny: string)
    requires Cast(alex, jordan, morgan, taylor, casey, riley, johnny)
    requires t0.friends.Keys == {alex, jordan, morgan, taylor, casey, riley}
    requires forall n :: n in t0.friends ==> t0.friends[n] == []
    ensures var t := Befriended(t0, alex, jordan, morgan, taylor, casey, riley, johnny);
      && t.order == t0.order
      && t.friends.Keys == t0.friends.Keys
      && t.friends[alex] == [jordan, morgan, taylor]
      && t.friends[riley] == [taylor, casey, morgan]
  {
    EarlyRequests(t0, alex, jordan, morgan, taylor, riley, johnny);
    var t4 := AddFriendship(AddFriendship(AddFriendship(AddFriendship(t0,
        alex, jordan), alex, morgan), jordan, taylor), jordan, johnny);
    LateRequests(t4, alex, jordan, morgan, taylor, casey, riley, johnny);
  }

  /**
    The whole session: the people in registration order, Alex's and Riley's
    friends in the order the requests made them, and the report lines for both.
  */
  lemma Session(alex: string, jordan: string, morgan: string, taylor: string,
                casey: string, riley: string, johnny: string)
    requires Cast(alex, jordan, morgan, taylor, casey, riley, johnny)
    ensures var t := Befriended(Registered(alex, jordan, morgan, taylor, casey, riley),
                                alex, jordan, morgan, taylor, casey, riley, johnny);
      && t.order == [alex, jordan, morgan, taylor, casey, riley]
      && t.friends.Keys == {alex, jordan, morgan, taylor, casey, riley}
      && t.friends[alex] == [jordan, morgan, taylor]
      && t.friends[riley] == [taylor, casey, morgan]
      && |Report(t)| == 6
      && Report(t)[0] == ReportLine(alex, [jordan, morgan, taylor])
      && Report(t)[5] == ReportLine(riley, [taylor, casey, morgan])
  {
    RegisteredPeople(alex, jordan, morgan, taylor, casey, riley, johnny);
    BefriendedPeople(Registered(alex, jordan, morgan, taylor, casey, riley),
                     alex, jordan, morgan, taylor, casey, riley, johnny);
  }

  /** The example's own names are all different, and Johnny is none of them. */
  lemma SampleCast()
    ensures Cast("Alex", "Jordan", "Morgan", "Taylor", "Casey", "Riley", "Johnny")
  {
    assert "Casey"[0] != "Riley"[0];
  }

  /** The line printed for somebody with three friends. */
  lemma ThreeFriendsLine(name: string, a: string, b: string, c: string)
    ensures ReportLine(name, [a, b, c]) == name + " is friends with: " + a + ", " + b + ", " + c
  {
    var xs := [a, b, c];
    assert xs[1..][1..] == [c];
    assert Join(", ", xs[1..]) == b + ", " + c;
    assert Join(", ", xs) == a + ", " + b + ", " + c;
  }

  /** The session with the example's own names prints the expected lines. */
  lemma SampleSession()
    ensures var t := Befriended(Registered("Alex", "Jordan", "Morgan", "Taylor", "Casey", "Riley"),
                                "Alex", "Jordan", "Morgan", "Taylor", "Casey", "Riley", "Johnny");
      && t.order == ["Alex", "Jordan", "Morgan", "Taylor", "Casey", "Riley"]
      && Report(t)[0] == "Alex" + " is friends with: " + "Jordan" + ", " + "Morgan" + ", " + "Taylor"
      && Report(t)[5] == "Riley" + " is friends with: " + "Taylor" + ", " + "Casey" + ", " + "Morgan"
  {
    SampleCast();
    Session("Alex", "Jordan", "Morgan", "Taylor", "Casey", "Riley", "Johnny");
    ThreeFriendsLine("Alex", "Jordan", "Morgan", "Taylor");
    ThreeFriendsLine("Riley", "Taylor", "Casey", "Morgan");
  }
}
