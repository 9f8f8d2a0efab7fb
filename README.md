# NodeBB group membership and invite-group selection, modelled in Dafny

This project models the group-reading core of NodeBB's `src/groups/user.ts`. The core has two parts.

- **Membership resolution.** It reads an ordered catalog of `{name, i}` group entries. For each uid it asks the bulk membership test for one boolean per catalog entry and keeps the entries whose boolean is set, in catalog order. It returns one list per uid, in uid order. `getUserGroupsFromSet` passes each list to the group-data fetch. `getUserGroups` does the same over the catalog of visible groups by creation time.
- **Invite-group selection.** It reads the non-privilege group catalog and removes the ephemeral group names. It then splits the remaining groups by their integer flags into public groups (`hidden`, `system` and `private` all 0) and private-visible groups (`private` 1, the other two 0). Hidden and system groups belong to neither class. The result is built by role:
  - an administrator gets the two role stubs, then every private-visible group;
  - a global moderator gets every private-visible group;
  - anyone else gets the private-visible groups they own.
  
  In every case the public groups come last.

The code is pure filter/map/concat, so the model uses functions over `seq` and lemmas. The collaborators are passed in as a datatype whose fields are the collaborator functions (the database reads, the membership, ownership and role tests, the group-data fetch) and, in `InviteGroups.Env`, the ephemeral-name list (`GroupMembership.Store`, `InviteGroups.Env`). Nothing about them is assumed beyond their types.

Files:
- `sequences.dfy` (module `Sequences`) holds the two forms of JavaScript's `filter` that the code uses, with their characterisation lemmas:
  - `Select` keeps the elements at positions that an index-aligned boolean vector marks;
  - `Filter` keeps the elements that satisfy a predicate, and is `Select` over the vector of the predicate's values.
- `membership.dfy` (module `GroupMembership`) holds `findUserGroups`, `getUserGroupMembership`, `getUserGroupsFromSet` and `getUserGroups`.
- `invite_groups.dfy` (module `InviteGroups`) holds `getUserInviteGroups`.

The model follows the code on these points, which a reader might not expect:
- The group flags are compared as integers (`=== 0`, `=== 1`), not as booleans. A flag value outside {0, 1} puts a group in no class.
- The ephemeral names are removed only in invite selection. Membership resolution lists whatever the catalog holds.
- The two role stubs are added without going through the ephemeral filter. The exclusion of ephemeral names therefore covers catalog groups (the `Full` entries) only.
- A membership or ownership vector shorter than the list it filters reads as `undefined`, which is falsy, past its end (`Sequences.Kept`). So no length precondition is needed.

## Model

| member | source | states |
|---|---|---|
| GroupMembership.FindUserGroups | src/groups/user.ts:47-51 | the result is no longer than the catalog and holds only catalog entries |
| GroupMembership.FindUserGroupsExact | src/groups/user.ts:47-51 | both directions: a list is findUserGroups' result exactly when it holds the catalog entries at the positions the membership vector marks and only those, in catalog order (an increasing embedding whose positions are exactly the marked ones); the result is a subsequence of the catalog |
| Sequences.SelectCharacterization | src/groups/user.ts:50 | both directions: a list equals the index-filter's result exactly when it holds the marked elements and only those, in their original order; this also covers the ownership filter at line 84 |
| Sequences.SelectIsSubsequence | src/groups/user.ts:84 | the index-filter's result is a subsequence of its input |
| Sequences.FilterMembership | src/groups/user.ts:66-75 | an element survives a predicate filter exactly when it is in the input and satisfies the predicate |
| Sequences.FilterIsSubsequence | src/groups/user.ts:66-75 | a predicate filter's result is a subsequence of its input |
| Sequences.FilterAll | src/groups/user.ts:66 | a filter that every element passes returns the input unchanged |
| GroupMembership.GetUserGroupMembership | src/groups/user.ts:53-61 | one list per uid, index-aligned with `uids`, so an empty `uids` gives an empty result; every listed entry is a catalog entry |
| GroupMembership.MembershipListExact | src/groups/user.ts:53-61 | list k holds exactly the catalog entries that uid k's membership vector marks, in catalog order, and is a subsequence of the catalog |
| GroupMembership.MembershipOfConcatenation | src/groups/user.ts:60 | resolving `u1 + u2` gives the results for `u1` followed by the results for `u2`, so no uid's list depends on the other uids or on completion order |
| GroupMembership.NoUidsNoGroups | src/groups/user.ts:42-61 | an empty uid list gives an empty membership result and an empty group-data result |
| GroupMembership.TwoUsersScenario | src/groups/user.ts:53-61 | catalog `[{a,0},{b,1}]`, where u1 is a member of `a` only and u2 of both, resolves to `[[{a,0}], [{a,0},{b,1}]]` |
| GroupMembership.GetUserGroupsFromSet | src/groups/user.ts:42-45 | one result per uid, index-aligned with `uids`; element k is the group data of the membership list that uid k alone would resolve to |
| GroupMembership.GetUserGroups | src/groups/user.ts:38-40 | element k is the group data of uid k's membership in the `groups:visible:createtime` catalog |
| InviteGroups.GetUserInviteGroups | src/groups/user.ts:64-97 | every listed group comes from the catalog, is not ephemeral, has `hidden == 0`, `system == 0` and `private` in {0, 1}; a role stub appears if and only if the user is an administrator, and then the first two entries are the administrators stub and the Global Moderators stub, in that order |
| InviteGroups.CatalogSegments | src/groups/user.ts:65-84 | which groups each intermediate list holds: non-ephemeral catalog groups; of these, the public ones and the private-visible ones; of the private-visible ones, those the user owns |
| InviteGroups.InviteMembership | src/groups/user.ts:65-96 | a group is listed if and only if it is in the catalog, not ephemeral, and either public or private-visible with the user an administrator, a global moderator or its owner |
| InviteGroups.InviteSegmentsByRole | src/groups/user.ts:86-96 | the public groups are the suffix of the result; before them come the stubs then every private-visible group for an administrator, every private-visible group for a global moderator, and the owned private-visible groups for anyone else |
| InviteGroups.AdministratorIgnoresModeratorAndOwnership | src/groups/user.ts:87-88 | for an administrator the result depends on neither the moderator role nor ownership |
| InviteGroups.ModeratorIgnoresOwnership | src/groups/user.ts:89-90 | for a global moderator who is not an administrator, the result does not depend on ownership |
| InviteGroups.SegmentsFollowCatalogOrder | src/groups/user.ts:66-84 | the public, private-visible and owned segments are subsequences of the catalog, so each keeps catalog order; the owned groups are also a subsequence of the private-visible ones |
| InviteGroups.InviteGroupsDistinct | src/groups/user.ts:66-96 | if the catalog lists no group twice, the result lists no entry twice |
| InviteGroups.ThreeGroupScenario | src/groups/user.ts:64-97 | catalog `[pub1, priv1, hid1]`, no ephemeral groups: an administrator, whatever they own, gets `[administrators, Global Moderators, priv1, pub1]`, a global moderator, whatever they own, `[priv1, pub1]`, anyone else who does not own priv1 `[pub1]` |

## Left out

- `getUsersFromSet` (src/groups/user.ts:23-36) is not modelled. It only passes the members of a set to the user module's bulk reads.
- Collaborator failures are not modelled. In the code, a rejected database, membership, ownership, role or group-data call rejects the whole request. The model's collaborators are total functions.
- The concurrent fan-out (`Promise.all`) is modelled as a sequential, index-aligned map. Its results are assembled in input order, so the order of completion does not matter.
- The wiring of the operations onto the shared `Groups` object (src/groups/user.ts:22) is not modelled. The model passes collaborators as parameters instead.
- Group records keep only `name`, `displayName`, `hidden`, `system` and `private`. Flags that are not numbers (strings, booleans, `undefined`) are not modelled separately. They behave like an integer outside {0, 1}, which puts the group in no class.
- The number of collaborator calls is not modelled. For example, an empty uid list makes no per-user calls.
- Idempotence of the selection has no member of its own. Every operation is a function of its inputs, so two calls on the same data return the same list.
