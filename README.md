# Social network, modelled in Dafny

This project models the small social network program in `social_network.py`.
The program has two classes:

- a `Person` has a name and a list of friends, and `add_friend` appends a
  friend unless that friend is already in the list;
- a `SocialNetwork` holds a registry (a dict) from names to people, and
  offers three operations:
  - `add_person` registers a name, or complains that the name already exists;
  - `add_friendship` makes two registered people friends of each other, or
    complains about the names that are not registered and changes nothing;
  - `print_network` prints one line per person in registration order:
    `"<name> is friends with: "` and then either the friends joined by `", "`
    or `No friends`.

The model has four modules:

- `Wrappers` (`wrappers.dfy`) holds the `Option` type. The model returns the
  program's diagnostics as `Option<string>` instead of printing them.
- `Adjacency` (`adjacency.dfy`) is the network as a value:
  - the registry's names in insertion order (a Python dict iterates in that
    order);
  - a map from each name to the names of that person's friends, in the order
    they were added.

  Every operation is a function on this value. `Invariant` is what no
  sequence of operations breaks:
  - each name is registered once;
  - no friend list holds a name twice;
  - every friend is registered;
  - friendship goes both ways.
- `Network` (`network.dfy`) holds the two classes written imperatively:
  - `Person` has a `friends` field that `AddFriend` updates in place;
  - `SocialNetwork` has a `people` map and an `order` sequence.

  `Valid()` holds the registry's structural facts and `Adjacency.Invariant`
  of the abstract value `Graph()`. Each method is proved to keep `Valid()`,
  and to change `Graph()` exactly as the matching `Adjacency` function does.
  `PrintNetwork` returns the report lines it would print.
- `Driver` (`driver.dfy`) replays the example session at the bottom of
  `social_network.py`:
  - six people are registered;
  - nine friendships are requested, one of them with the unregistered
    "Johnny";
  - the network is reported.

  The session is proved for any six different names plus one unregistered
  name, and then for the example's own names.

## Model

| member | source | states |
|---|---|---|
| `Adjacency.AddIfAbsent` | social_network.py:17-20 | The new list contains the friend. Old entries keep their places as a prefix. The length grows by one exactly when the friend was absent, and then the friend is last. A list without duplicates stays without duplicates. |
| `Adjacency.AddIfAbsentIdempotent` | social_network.py:19-20 | Adding the same friend a second time changes nothing. |
| `Adjacency.NoDuplicatesOnce` | social_network.py:19-20 | In a list kept free of duplicates, every member occurs exactly once. |
| `Network.Person.constructor` | social_network.py:13-15 | A new person has the given name and no friends. |
| `Network.Person.AddFriend` | social_network.py:17-20 | The person's list becomes `AddIfAbsent` of the old list and the friend's name; only this person changes. |
| `Adjacency.AddPerson` | social_network.py:39-44 | The keys gain the name and the old lists are untouched. A duplicate name leaves the network unchanged. A new name goes last in the order, with an empty friend list. |
| `Adjacency.DuplicateMessage` | social_network.py:41-42 | The duplicate diagnostic is `Person '`, the name, then `' already exists in the network.` |
| `Adjacency.AddPersonIdempotent` | social_network.py:41-44 | Registering a name twice gives the same network as registering it once. |
| `Adjacency.AddPersonPreservesInvariant` | social_network.py:39-44 | Registering a name keeps the invariant: the order still has no repeats, and the key set still matches the order. |
| `Network.SocialNetwork.constructor` | social_network.py:36-37 | A new network is empty and `Valid`, so it satisfies the invariant. |
| `Network.SocialNetwork.AddPerson` | social_network.py:39-44 | The new state is `Adjacency.AddPerson` of the old one, and `Valid` (which includes the invariant) is kept. The diagnostic comes exactly on a duplicate. Existing Person objects stay in place, and a new one is freshly allocated. |
| `Adjacency.MissingMessage` | social_network.py:49 | The text names the missing first name, the missing second name, or both. Both are joined by " and " only when both are missing. |
| `Adjacency.FriendshipDiagnostic` | social_network.py:48-50 | There is a diagnostic exactly when one of the two names is not registered. When there is one, it is `MissingMessage` for exactly the names that are missing. |
| `Adjacency.AddFriendship` | social_network.py:46-56 | The order and the key set never change. When either name is missing, the network is unchanged. |
| `Adjacency.AddFriendshipEffect` | social_network.py:52-56 | On success each person is in the other's list. Each list is `AddIfAbsent` of the old list, with the first person updated first. Every other person's list is unchanged. |
| `Adjacency.AddFriendshipIdempotent` | social_network.py:46-56 | Requesting the same friendship again changes nothing. |
| `Adjacency.AddFriendshipSelf` | social_network.py:52-56 | A friendship of a person with themself lists them exactly once in their own list. |
| `Adjacency.AddFriendshipKeepsSymmetric` | social_network.py:52-56 | A successful friendship keeps friendship symmetric: both people gain each other and nobody else changes. |
| `Adjacency.AddFriendshipPreservesInvariant` | social_network.py:46-56 | A friendship request keeps the invariant. Lists stay without duplicates, and friendship stays symmetric. |
| `Network.SocialNetwork.Link` | social_network.py:52-56 | Once both names are known to be registered, the two `add_friend` calls move the state to `Adjacency.AddFriendship` of the old one. |
| `Network.SocialNetwork.AddFriendship` | social_network.py:46-56 | The new state is `Adjacency.AddFriendship` of the old one, and `Valid` (which includes the invariant) is kept. The registry and its order are unchanged. The diagnostic is `Adjacency.FriendshipDiagnostic` of the old state. |
| `Adjacency.RunPreservesInvariant` | social_network.py:39-56 | Every network reached from one that satisfies the invariant, by any sequence of `add_person` and `add_friendship` calls, satisfies it. |
| `Adjacency.JoinSnoc` | social_network.py:62 | Joining a non-empty list extended by one name adds the separator and that name at the end. |
| `Adjacency.Join` | social_network.py:62 | Joining no names gives the empty string, and joining one name gives that name. A non-empty join starts with the first name. |
| `Adjacency.ReportLine` | social_network.py:61-62 | A report line starts with the name followed by " is friends with: ". After that comes "No friends" for an empty list, or otherwise the friends' names in list order, joined by ", ". |
| `Adjacency.Report` | social_network.py:58-62 | The report has one line per registered name, in registration order, and each line starts with its own name. |
| `Adjacency.ReportLineAfterAddFriend` | social_network.py:17-20 | A new friend replaces "No friends" with the friend's name, or appends ", " and the name. A known friend leaves the line as it was. |
| `Adjacency.ReportListsEachPersonOnce` | social_network.py:58-62 | Under the invariant, each registered person has exactly one line, and it is their own. |
| `Network.SocialNetwork.PrintNetwork` | social_network.py:58-62 | On a `Valid` network, which keeps the invariant, the loop over the registry returns exactly `Adjacency.Report` of the current state. That is one line per registered person, none repeated, by `ReportListsEachPersonOnce`. |
| `Driver.Newcomers` | social_network.py:70-75 | Three new, different names go last in turn, and nobody has friends yet. |
| `Driver.RegisteredPeople` | social_network.py:70-75 | After the six registrations, the order is the six names and everyone has no friends. |
| `Driver.EarlyRequests` | social_network.py:78-81 | After the first four requests, the fourth naming an unregistered person, Alex has [Jordan, Morgan] and Riley has no friends. The order and the key set are unchanged. |
| `Driver.LateRequests` | social_network.py:82-86 | After the last five requests, Alex has [Jordan, Morgan, Taylor] and Riley has [Taylor, Casey, Morgan]. |
| `Driver.Session` | social_network.py:66-89 | For any six different names and one unregistered name, the whole session gives those lists. The report has six lines, and lines 0 and 5 are Alex's and Riley's. |
| `Driver.ThreeFriendsLine` | social_network.py:62 | The line printed for somebody with three friends is the name, " is friends with: ", and the three names separated by ", ". |
| `Driver.SampleSession` | social_network.py:66-89 | With the example's names, the report's first line is "Alex is friends with: Jordan, Morgan, Taylor" and its last line is "Riley is friends with: Taylor, Casey, Morgan". |

## Left out

- Printing: the three `print` calls (lines 42, 49 and 62) become returned
  values. Diagnostics are `Option<string>`, and the report is a sequence of
  lines. The "--- SOCIAL NETWORK ---" banner at line 88 is not modelled.
- Friend lists as references: in the program a person's `friends` list holds
  `Person` objects, and `add_friend` compares them by identity. Here the list
  holds friends' names instead. The two agree for people of one network,
  because:
  - the registry is keyed by the same name each `Person` carries;
  - each `Person` is created exactly once, at line 44.

  A `Person` built outside any network is not covered.
- Network.Person.AddFriend: a friend is recognised by name, not by object
  identity. Two different `Person` objects with the same name count as the
  same friend here; the program would list both.
- The design memo (lines 93-103) and its running-time claims are prose, so
  there is nothing to model.
- The remaining lines of the example session are not stated one by one.
  These are the friend lists of Jordan, Morgan, Taylor and Casey, and the
  report's four middle lines. The session lemmas pin down Alex's and Riley's
  lists and lines, which is what the example's output highlights.
