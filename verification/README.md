# suitemate: preference tree and social graph, in Dafny

This project models the two in-memory components of the suitemate roommate matcher. It proves
what they compute.

**The preference decision tree** (`app/decision_tree.py`). `build_decision_tree` turns an
ordered list of `(category, choices)` levels into a fixed-depth tree whose partitions keep dict
insertion order. `get_user_preferences` maps a user to the eight values that locate its leaf:
- the rent band of the floor midpoint of its rent range, among ten hard-coded contiguous bands;
- the gender-preference flag, which at the gender level selects `gender.lower()` or `"any"`;
- the number of roommates, pets, cleanliness, guests, smoking and noise.

Queries on the tree:
- `add_user_to_tree` appends the user to that leaf.
- `find_exact_matches` returns the leaf without the user's first occurrence.
- `find_closest_matches` backtracks through sibling partitions in dict order when a subtree comes
  back empty. It never backtracks at the rent or gender level.
- `count_leaves` and `find_all_leaves` enumerate the leaves.

**The social graph** (`app/social_graph.py`). A `Network` maps user ids to vertices. Each vertex
holds three relations: the users suggested to it, the users that sent it a request, and its
matches.
- Operations: add users and suggestions, send and accept requests, and query the relations.
- Triadic closure (`find_new_suggestion`) suggests to a user the common matches of two of its
  matches.
- A depth-first search splits the graph into connected communities along matches.
- `create_network_single_community` seeds a group of users. It suggests every pair to each other.
  Coin flips decide which requests are accepted, and one user is never given a request or
  match.

## Modelling decisions

**Tree.**
- A tree is `Node = Leaf(decision, users) | Internal(category, decision, children)`. The children
  are an ordered sequence of `(Key, Node)` pairs, so dict iteration order is explicit.
  - `Key` tags the Python values used as dict keys: a band tuple, a string, an int, a bool, or
    `Null` for `None`. This keeps `True` and `1` apart.
  - Filling a node's partitions follows dict assignment (`Put`): a repeated choice overwrites
    in place. So a node's keys are the choices with duplicates removed, in first-occurrence order.
- The `KeyError` of a missing partition is handled in two ways:
  - In `add_user_to_tree` and `find_exact_matches` it is the precondition `Fits`: the walk ends
    exactly at a leaf.
  - `closest_helper` may walk into siblings that do not fit. There the error is modelled as
    `None` (`DecisionTree.FindClosestMatches` returns an `Option`), and the lemmas give
    conditions under which it does not happen.
- `User` is a dataclass, so `in`, `remove` and `==` compare users field by field. Dafny's
  datatype equality does the same.

**Graph.**
- Python keeps `_User` objects in the relation sets and compares them by identity. Here every
  relation is a set of ids. `Valid` bundles the invariants that make ids name vertices:
  - keys are the users' ids;
  - every referenced id has a vertex;
  - no vertex relates to itself;
  - matches are mutual.
- A `set.remove` that would raise `KeyError` becomes a precondition of `SendRequest` and
  `AcceptRequest`.
- `add_user` silently overwrites an existing vertex. `AddUser` carries the docstring's
  precondition that the id is new.
- Python iterates sets and dicts in an order this model does not fix. `Traversal.Pick` chooses
  the next element arbitrarily, so every property holds for every order.
- `create_network_single_community` is a pure function. Its two loops run over a list, so their
  order is fixed. The `k`-th `random.choice` in `random_accept` is the parameter `coins(k)`.

**Docstring invariants.** The `_User` docstring (`app/social_graph.py:36-41`) lists several
invariants that `send_request` and `accept_request` do not keep. `GraphLaws` exhibits concrete
graphs on which they fail:
- suggestion symmetry;
- no request from a suggested user;
- no match with a suggested user.

These are documentation that the code does not keep, so they are not used as invariants.

## Model

| member | source | states |
|---|---|---|
| Preferences.RentBandsShape | app/decision_tree.py:332-333 | The ten hard-coded bands are non-empty and contiguous, and span 0 to 12000. |
| Preferences.FindBand | app/decision_tree.py:336-339 | The scan returns a band of the list that holds the midpoint. It returns nothing only when no band holds it. |
| Preferences.FindBandUnique | app/decision_tree.py:336-339 | On contiguous non-empty bands, the scan finds a band exactly when the value lies between the first low and the last high. The band found is the only one that holds the value. |
| Preferences.RentBand | app/decision_tree.py:332-339 | A user's rent key is a band exactly when `(lo+hi)//2` is in [0, 12000]. It is then the unique one of the ten bands holding the midpoint; otherwise it is `None`. |
| TreeInsert.StepKeysOfPreferences | app/decision_tree.py:120-128 | Walking a user's eight preferences consumes its path: the rent band, `gender.lower()` if it has a gender preference and `"any"` otherwise, then the remaining six values. |
| TreeInsert.StepKeysBelowGender | app/decision_tree.py:127-128 | Below the gender level the walk uses each preference value itself as the key. |
| DecisionTree.Put | app/decision_tree.py:275 | Dict assignment: an existing key keeps its position and a new key goes last. Afterwards the pair is present and every other pair was already there. |
| TreeShape.FillShape | app/decision_tree.py:272-275 | After the first `k` choices, the partition keys are those choices without duplicates, in first-occurrence order. Each child is the tree built for its own choice. |
| TreeShape.BuildConforms | app/decision_tree.py:263-276 | A built tree has exactly the schema's shape: per level, its category, one child per distinct choice, and each child recording its choice as `decision`. The root records the given decision. |
| TreeShape.BuildChildren | app/decision_tree.py:268-276 | With distinct choices, child `i` of a built node is choice `i` with the tree built from the remaining levels for that choice. |
| TreeShape.BuildLeavesEmpty | app/decision_tree.py:263-266 | Every leaf of a freshly built tree holds the empty user list. |
| TreeShape.LeafListMatchesCount | app/decision_tree.py:233-248 | For every tree, `find_all_leaves` returns as many lists as `count_leaves` counts. |
| TreeShape.ConformsLeafCount | app/decision_tree.py:73-86 | A tree of a schema's shape whose levels are non-empty has as many leaves as the product of the levels' distinct-choice counts. |
| TreeShape.BuildLeafCount | app/decision_tree.py:252-276 | For a schema with non-empty levels, `count_leaves` and `len(find_all_leaves())` of the built tree both equal the product of the distinct-choice counts. |
| TreeShape.ConformsWellFormed | app/decision_tree.py:52 | A tree of a schema's shape has distinct partition keys at every node, as a dict does. |
| TreeSchema.RootLeafCount | app/decision_tree.py:238 | With the four choice sets the code fixes (ten bands, and pets, guests and smoking boolean), the built tree has 80 times the product of the four free levels' sizes in leaves. It has 11520 exactly when that product is 144. |
| TreeInsert.FitsIffLeafAtPath | app/decision_tree.py:113-128 | The insertion walk succeeds exactly when plain dict descent along the user's step keys ends at a leaf. |
| TreeInsert.ConformsFits | app/decision_tree.py:113-128 | On a tree of the schema's shape, the walk succeeds for every path whose keys are choices of their levels. |
| TreeInsert.AddRecLeaf | app/decision_tree.py:113-128 | After insertion the walk still fits, and its leaf is the old leaf with the user appended at the end. |
| TreeInsert.AddRecAppendsOneLeaf | app/decision_tree.py:113-128 | Insertion changes exactly one leaf of `find_all_leaves`, by appending the user; every other leaf is unchanged. |
| TreeInsert.AddUserToTreeSpec | app/decision_tree.py:89-128 | The user's path leads to a leaf, and afterwards to that leaf with the user appended. Exactly one leaf changes. The multiset of all users gains exactly the user, and the count grows by one. The shape is unchanged. |
| TreeInsert.AddUserKeepsShape | app/decision_tree.py:89-128 | Insertion keeps the tree of its schema's shape, well formed, with the same leaf count. |
| TreeInsert.ExactRecIsLeafMinusUser | app/decision_tree.py:158-173 | The exact walk returns its leaf's list with the first occurrence of the querying user removed. |
| TreeInsert.FindExactMatchesSpec | app/decision_tree.py:131-174 | `find_exact_matches(u)` is the list at the end of `u`'s path with `u`'s first occurrence removed, or the whole list if `u` is absent. |
| Lists.RemoveFirst | app/decision_tree.py:159-163 | Removing an absent user returns the list itself. Otherwise the result is one shorter. |
| Lists.RemoveFirstAt | app/decision_tree.py:159-162 | Removing a present user drops exactly the first position holding it. |
| Lists.RemoveFirstMultiset | app/decision_tree.py:159-163 | Removal takes exactly one copy of the user out of the multiset of users, or none if absent. |
| TreeInsert.AddThenFindExact | app/decision_tree.py:89-174 | After inserting `u`, `find_exact_matches(v)` for any other `v` on the same path is its previous answer with `u` appended, so it contains `u`. |
| TreeInsert.AddThenFindSelf | app/decision_tree.py:89-174 | If `u` was not yet in its leaf, inserting it leaves `find_exact_matches(u)` unchanged. |
| TreeInsert.BuildPartitioned | app/decision_tree.py:252-276 | A freshly built tree satisfies the partition invariant: every leaf any path reaches is empty, so no user sits off its own path. |
| TreeInsert.AddUserToTreeFrame | app/decision_tree.py:89-128 | Insertion changes no leaf but the one at `PathOf(u)`. Every path that is not a prefix of `PathOf(u)` reaches the same node before and after. Every other path reaches a leaf before exactly when it does after, and then the same leaf. |
| TreeInsert.AddUserKeepsPartition | app/decision_tree.py:89-128 | Insertion keeps the partition invariant: every user in the leaf a path `p` reaches has `PathOf(user) == p`. |
| TreeInsert.ExactMatchesSharePath | app/decision_tree.py:131-135 | On a partitioned tree, every user `find_exact_matches(u)` returns has the same path as `u`: the same rent band, gender key and remaining six values. |
| TreeClosest.ClosestAgreesWithExact | app/decision_tree.py:204-230 | Where the exact walk from a node finds someone, the backtracking walk returns the very same list. |
| TreeClosest.FindClosestAgreesWithExact | app/decision_tree.py:177-230 | If `find_exact_matches(u)` is non-empty, `find_closest_matches(u)` returns the same list. |
| TreeClosest.ClosestTopLevels | app/decision_tree.py:181-184 | A successful `find_closest_matches(u)` is the backtracking answer computed inside the subtree of `u`'s own rent band and gender key. |
| TreeClosest.ClosestFromLeaf | app/decision_tree.py:204-230 | Every successful answer is some leaf below the node, with the user's first occurrence removed. |
| TreeClosest.SiblingsFirstNonEmpty | app/decision_tree.py:224-229 | A non-empty backtracking answer is that of the first sibling in dict order, skipping the user's own key, with a non-empty answer. Every sibling before it answered `[]`. |
| TreeClosest.SiblingsEmpty | app/decision_tree.py:224-230 | An exhausted sibling loop means every sibling tried answered `[]`. |
| TreeClosest.ClosestEmptyIff | app/decision_tree.py:220-230 | Below the gender level, on a well-formed tree, a successful answer is `[]` exactly when every leaf below the node is empty once the user's first occurrence is removed. |
| TreeClosest.FindClosestMatchesSpec | app/decision_tree.py:177-230 | A result of `find_closest_matches(u)` is a leaf under `u`'s own rent-band and gender node, minus `u`. On a well-formed tree it is `[]` exactly when every leaf of that subtree is empty apart from `u`. |
| TreeClosest.ClosestDefined | app/decision_tree.py:204-230 | On a tree of the schema's shape, the backtracking walk raises no error for a path of schema choices. Every sibling tried is of the same shape. |
| TreeClosest.FindClosestDefined | app/decision_tree.py:190-191 | On a tree of the schema's shape, `find_closest_matches(u)` succeeds when `u`'s path consists of choices of the schema. |
| SocialGraph.GetUser | app/social_graph.py:129-139 | Returns a vertex exactly when the id is present, and then the id's own vertex; otherwise `None`. |
| SocialGraph.AddUser | app/social_graph.py:141-148 | For a new id: the keys gain exactly that id, its vertex is isolated with three empty relations, and every other vertex is unchanged. |
| GraphLaws.AddUserValid | app/social_graph.py:141-148 | Adding a new user keeps the graph valid. |
| GraphLaws.GetUserAfterAddUser | app/social_graph.py:129-148 | After `add_user(u)`, `get_user` returns `u`'s isolated vertex for its id, and its previous answer for every other id. |
| SocialGraph.AddSuggestion | app/social_graph.py:150-165 | Both vertices exist afterwards, created from the given users if missing. Each user gains exactly the other as a suggestion. Requests, matches, existing users and every other vertex are unchanged. |
| GraphLaws.AddSuggestionValid | app/social_graph.py:150-165 | Between users with different ids, `add_suggestion` keeps the graph valid. |
| GraphLaws.AddSuggestionIdempotent | app/social_graph.py:150-165 | Repeating the same `add_suggestion` changes nothing. |
| GraphLaws.GetSuggestionsAfterAddSuggestion | app/social_graph.py:224-235 | After `add_suggestion(u1, u2)`, `get_suggestions(u1)` succeeds with its previous suggestions plus `u2`. |
| SocialGraph.SendRequest | app/social_graph.py:74-84 | `b` leaves `a`'s suggestions and `a` joins `b`'s requests. Nothing else changes: `b`'s suggestions, all matches, keys and users. |
| GraphLaws.SendRequestValid | app/social_graph.py:167-177 | Sending a request along a suggestion keeps the graph valid. |
| SocialGraph.AcceptRequest | app/social_graph.py:61-72 | The request from `b` is consumed and the two become each other's matches. Suggestions, keys and users are unchanged. |
| GraphLaws.AcceptRequestValid | app/social_graph.py:179-189 | Accepting a pending request keeps the graph valid; in particular matches stay mutual. |
| GraphLaws.SendThenCheck | app/social_graph.py:191-222 | Once `a` has sent `b` a request, `check_request(b, a)` holds and `check_suggestion(a, b)` no longer does. |
| GraphLaws.SendThenAccept | app/social_graph.py:179-189 | A request along a suggestion, once accepted, leaves a valid graph in which the two are matched both ways, the request is gone, and `check_request` holds in both directions. |
| GraphLaws.AddSuggestionKeepsLinks | app/social_graph.py:150-165 | `add_suggestion` links the two users and loses no relation between any two users. |
| GraphLaws.SendRequestKeepsLinks | app/social_graph.py:74-84 | `send_request` loses no relation between any two users: the suggestion it removes becomes a request. |
| GraphLaws.AcceptRequestKeepsLinks | app/social_graph.py:61-72 | `accept_request` loses no relation between any two users: the request it removes becomes a match. |
| GraphLaws.SendRequestBreaksSuggestionInvariants | app/social_graph.py:36-41 | On a valid two-user graph where both invariants hold, one `send_request` breaks suggestion symmetry (`:36`) and the rule that a requester is not a suggestion (`:41`). |
| GraphLaws.AcceptRequestBreaksMatchInvariants | app/social_graph.py:38-39 | Accepting that request leaves a valid graph in which a suggested user is a match (`:38`), and a match still holds the user as a suggestion (`:39`). |
| SocialGraph.CheckRequest | app/social_graph.py:206-222 | True exactly when both users exist and `b` is in `a`'s requests or matches. Only `a`'s sets are read. |
| SocialGraph.CheckSuggestion | app/social_graph.py:191-204 | True exactly when both users exist and `b` is a suggestion of `a`. The fallback to `check_request` never answers true. |
| SocialGraph.GetSuggestions | app/social_graph.py:224-235 | `ValueError` exactly for an absent user. Otherwise the ids suggested to it. |
| SocialGraph.CommonMatches | app/social_graph.py:258-268 | The users matched with both `m1` and `m2`, other than `avoid`, in both directions of membership. |
| Traversal.ConnectedMatches | app/social_graph.py:86-101 | The search from `v` returns `v` first and no id twice. It returns exactly the users reachable from `v` along matches without entering `visited`, and reports the seen ids as `visited` plus those users. |
| Traversal.FindConnectedCommunities | app/social_graph.py:280-294 | One duplicate-free list per community, each exactly the connected component of its first member. The lists are pairwise disjoint and together hold every user. |
| TriadicClosure.FewMatchesNothingToClose | app/social_graph.py:246-247 | With fewer than two matches there is no pair of different matches, so nothing is suggested. |
| TriadicClosure.CollectCommon | app/social_graph.py:249-254 | The nested loops collect exactly the users, other than `u`, that two different matches of `u` share, in any iteration order. |
| TriadicClosure.SuggestAll | app/social_graph.py:255-256 | Suggesting each collected user adds exactly those suggestions in both directions, changes nothing else, and keeps the graph valid. |
| TriadicClosure.FindNewSuggestion | app/social_graph.py:237-256 | Nothing changes with fewer than two matches. Otherwise `u` and each user two of its matches share become mutual suggestions. Requests, matches, keys and users are unchanged, and the graph stays valid. |
| Seeding.ProcessPairSpec | app/social_graph.py:374-379 | One pair keeps the graph valid and every link, and links the two users. A coin is spent exactly when neither user is `exclude` and `check_request(u1, u2)` was false. Heads means matched both ways, tails means a pending request. New relations join only the pair, requests and matches never `exclude`. |
| Seeding.InnerStep | app/social_graph.py:373-380 | One inner-loop step, with the pair marked as seen, keeps the loop invariant: the graph stays valid, no earlier link is lost, and every seen pair with different ids is linked, including the new one. Vertices and suggestions are added only within the group, and requests and matches only among group members other than `exclude`. |
| Seeding.InnerSpec | app/social_graph.py:373-381 | The inner loop keeps the invariant and records the pair of `u1` with every later user. |
| Seeding.OuterSpec | app/social_graph.py:372-381 | The outer loop keeps the invariant and records every pair of positions. |
| Seeding.LoneUserProgress | app/social_graph.py:369-370 | Adding the lone user of a one-user group is a change within the group. |
| Seeding.CreateNetworkSingleCommunitySpec | app/social_graph.py:361-381 | The graph stays valid and keeps every link. Vertices are added only for the group (always for a lone user). Every two group members with different ids end up linked. New suggestions join group members; new requests and matches join group members other than `exclude`. |
| Seeding.ExcludeGetsNoLinks | app/social_graph.py:361-367 | For every sequence of coin flips, `exclude` gains no request or match, and nobody gains a request from or a match with `exclude`. |

## Left out

- `read_file` (app/decision_tree.py:280-321) and all CSV reading and writing: this is file I/O. The schema is a parameter of `Build`, and `TreeSchema.FixedLevels` fixes only the four choice sets that the code itself hard-codes. So the count of 11520 is stated as conditional on the four levels read from the file.
- TreeSchema.RootLeafCount: assumes the rent level of the file holds exactly the ten bands that `get_user_preferences` uses. `read_file` builds that level from the file plus `(3201, 12000)`, and the model does not read the file.
- `get_users_preferences`: a plain map of `get_user_preferences` over a list, with nothing to prove beyond it.
- `get_partitions`, `is_empty`, `print_graph`: trivial accessors and console output.
- `random_suggestions`, `random_suggestion_user`, `generate_random_users`, and the random tail of `create_network_all`: they depend on the process random generator. In `create_network_single_community` the coin flips are a parameter instead. `random_request` and `random_accept` are inlined there.
- `find_all_new_suggestions`: it calls `find_new_suggestion` once per user in dict order, and each call is modelled.
- `create_network_all`: a loop of `create_network_single_community` followed by random suggestions.
- DecisionTree.FindAllLeaves: a childless internal node, which only an empty choice set produces, yields `[[]]` here. The source appends its `users`, which is `None`.
- DecisionTree.AddRec: not modelled on a walk that ends at an internal node, where the source would start a user list on that node. `Fits` requires the walk to end at a leaf, since every tree `build_decision_tree` produces has all its leaves at the bottom.
- Users.User: every preference field is total here, while `gender_pref`, `smoke`, `rent`, `pets`, `noise`, `guests`, `cleanliness` and `num_roommates` are optional in the source (app/user.py:46-55), and `csv_read` produces `None` for a `'None'` cell. Those `None` paths are not modelled. A `None` rent raises `TypeError` in `get_user_preferences`. A `None` in one of the six lower levels makes the walks raise `KeyError` unless that level lists `None` as a choice. A `None` gender preference is falsy and walks to `"any"`, exactly like `False`.
- Users.Lower: ASCII case folding only. Python's `str.lower` also folds non-ASCII letters.
- Rents are integers: the generated data rounds them. Float rents are not modelled.
- Seeding.CreateNetworkSingleCommunitySpec: requires the lone user of a one-user group to be new, as `add_user`'s docstring demands. The source would overwrite an existing vertex and drop its relations.
- SocialGraph.AddSuggestion: keeps validity only for users with different ids (`GraphLaws.AddSuggestionValid`). The docstring asks the callers for that; called with one user twice, the source makes a self-suggestion.
- The coin flips are a function from the coin's index to a boolean, not a list. A list of them is one such function.
- The Flask views, the session and authentication code, the ORM models and database helpers, and the JavaScript front end: web plumbing and database glue, with no algorithm of their own.
