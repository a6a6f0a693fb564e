/**
  The two classes of the program, updated in place as the original does.  A
  Person records its friends by name; a SocialNetwork owns one Person per
  registered name.  Each method is proved to move the abstract value Graph()
  exactly as the matching function of module Adjacency does, and to keep
  Adjacency.Invariant.
*/
module Network {
  import opened Wrappers
  import Adjacency

  class Person {
    const name: string
    var friends: seq<string>

    constructor (name: string)
      ensures this.name == name && friends == []
    {
      this.name := name;
      friends := [];
    }

    /** Appends `friend` unless they are already a friend of this person. */
    method AddFriend(friend: Person)
      modifies this
      ensures friends == Adjacency.AddIfAbsent(old(friends), friend.name)
    {
      if friend.name !in friends {
        friends := friends + [friend.name];
      }
    }
  }

  class SocialNetwork {
    /** The registry, name to person. */
    var people: map<string, Person>
    /** The registry's names in insertion order, the order a dict iterates in. */
    var order: seq<string>

    /** The registry as a value: its names in order and each person's friends. */
    ghost function Graph(): Adjacency.Network
      reads this, people.Values
    {
      Adjacency.Network(order, map n | n in people :: people[n].friends)
    }

    /** Every person is registered under their own name, and the order lists registered names. */
    ghost predicate Registry()
      reads this, people.Values
    {
      && (forall n :: n in people ==> people[n].name == n)
      && (forall k :: 0 <= k < |order| ==> order[k] in people)
    }

    /** A well-formed registry whose value keeps Adjacency.Invariant. */
    ghost predicate Valid()
      reads this, people.Values
    {
      Registry() && Adjacency.Invariant(Graph())
    }

    constructor ()
      ensures Valid() && Graph() == Adjacency.Empty
    {
      people := map[];
      order := [];
    }

    method AddPerson(name: string) returns (diagnostic: Option<string>)
      requires Valid()
      modifies this
      ensures Valid()
      ensures Graph() == Adjacency.AddPerson(old(Graph()), name)
      ensures diagnostic == if name in old(people) then Some(Adjacency.DuplicateMessage(name)) else None
      ensures forall n :: n in old(people) ==> n in people && people[n] == old(people)[n]
      ensures name !in old(people) ==> fresh(people[name])
    {
      if name in people {
        diagnostic := Some(Adjacency.DuplicateMessage(name));
      } else {
        var person := new Person(name);
        people := people[name := person];
        order := order + [name];
        diagnostic := None;
        assert Graph().friends == old(Graph()).friends[name := []];
      }
      Adjacency.AddPersonPreservesInvariant(old(Graph()), name);
    }

    method AddFriendship(first: string, second: string) returns (diagnostic: Option<string>)
      requires Valid()
      modifies people.Values
      ensures Valid()
      ensures people == old(people) && order == old(order)
      ensures Graph() == Adjacency.AddFriendship(old(Graph()), first, second)
      ensures diagnostic == Adjacency.FriendshipDiagnostic(old(Graph()), first, second)
    {
      ghost var g := Graph();
      var firstMissing := first !in people;
      var secondMissing := second !in people;
      if firstMissing || secondMissing {
        diagnostic := Some(Adjacency.MissingMessage(first, second, firstMissing, secondMissing));
        return;
      }
      Link(first, second);
      diagnostic := None;
      Adjacency.AddFriendshipPreservesInvariant(g, first, second);
    }

    /** The two registered people add each other as friends, first then second. */
    method Link(first: string, second: string)
      requires Registry() && first in people && second in people
      modifies people.Values
      ensures Registry() && people == old(people) && order == old(order)
      ensures Graph() == Adjacency.AddFriendship(old(Graph()), first, second)
    {
      ghost var g := Graph();
      var person1 := people[first];
      var person2 := people[second];
      person1.AddFriend(person2);
      person2.AddFriend(person1);
      var r := Adjacency.AddFriendship(g, first, second);
      Adjacency.AddFriendshipEffect(g, first, second);
      forall n | n in people ensures Graph().friends[n] == r.friends[n] {
        if n != first && n != second {
          assert people[n] != person1 && people[n] != person2;
        }
      }
      assert Graph().friends == r.friends;
    }

    /** The report `print_network` writes, one line per registered person. */
    method PrintNetwork() returns (lines: seq<string>)
      requires Valid()
      ensures lines == Adjacency.Report(Graph())
    {
      ghost var g := Graph();
      ghost var report := Adjacency.Report(g);
      lines := [];
      for i := 0 to |order|
        invariant |lines| == i
        invariant forall k :: 0 <= k < i ==> lines[k] == report[k]
      {
        var name := order[i];
        assert people[name].friends == g.friends[name];
        lines := lines + [Adjacency.ReportLine(name, people[name].friends)];
      }
    }
  }
}
